/** The on-disk side of src/filesys/inode.c: the inode record (struct
    inode_disk), the three-level block index and get_sector, and the bytes
    a file holds. Index sectors are read as little-endian words from the
    sectors they occupy. */
module InodeDisk {
  import opened Bytes
  import opened Block
  import opened Bitmap

  const INODE_MAGIC: u32 := 0x494e4f44
  /** Data sectors one inode can address: 12 + 128 + 128 * 128. */
  const INODE_MAX_SECTOR: nat := 16524
  /** Block pointers in one index sector. */
  const SECTOR_CAPACITY: nat := 128
  const DIRECT_LIMIT: nat := 12
  const SINGLE_INDIRECT_LIMIT: nat := 140
  /** The largest file the index can address, in bytes (8,460,288). */
  const MAX_LENGTH: nat := INODE_MAX_SECTOR * BLOCK_SECTOR_SIZE

  /** struct inode_disk. The 111 unused words are zero (calloc) and are
      not kept. */
  datatype DiskInode = DiskInode(length: u32, parent: u32, direct: seq<u32>,
                                 single: u32, double: u32, magic: u32)

  predicate WellFormed(d: DiskInode)
  {
    |d.direct| == DIRECT_LIMIT
  }

  /** The 128 words of the record, in field order. */
  function Record(d: DiskInode): (ws: seq<u32>)
    requires WellFormed(d)
    ensures |ws| == SECTOR_CAPACITY
  {
    [d.length, d.parent] + d.direct + [d.single, d.double, d.magic] + seq(111, _ => 0)
  }

  /** The sector image block_write stores for the record. */
  function EncodeInode(d: DiskInode): (b: seq<byte>)
    requires WellFormed(d)
    ensures |b| == BLOCK_SECTOR_SIZE
  {
    Encode(Record(d))
  }

  /** The record block_read fills from a sector image. */
  function DecodeInode(b: seq<byte>): (d: DiskInode)
    requires |b| == BLOCK_SECTOR_SIZE
    ensures WellFormed(d)
  {
    var ws := Decode(b);
    DiskInode(ws[0], ws[1], ws[2..14], ws[14], ws[15], ws[16])
  }

  /** Reading back a written record gives the record. */
  lemma DecodeEncodeInode(d: DiskInode)
    requires WellFormed(d)
    ensures DecodeInode(EncodeInode(d)) == d
  {
    var ws := Record(d);
    DecodeEncode(ws);
    assert Decode(EncodeInode(d))[2..14] == d.direct;
  }

  /** DIV_ROUND_UP (size, BLOCK_SECTOR_SIZE): bytes_to_sectors. */
  function SectorsOf(size: nat): nat
  {
    (size + BLOCK_SECTOR_SIZE - 1) / BLOCK_SECTOR_SIZE
  }

  /** Where the pointer to a data block lives: a direct slot of the
      record, a slot of the single-indirect sector, or an inner slot of
      the second-level sector found at an outer slot of the double-indirect
      sector. */
  datatype Slot = Direct(i: nat) | Single(i: nat) | Double(outer: nat, inner: nat)

  predicate ValidSlot(s: Slot)
  {
    match s
    case Direct(i) => i < DIRECT_LIMIT
    case Single(i) => i < SECTOR_CAPACITY
    case Double(o, i) => o < SECTOR_CAPACITY && i < SECTOR_CAPACITY
  }

  /** The slot get_sector and extend_inode use for block index. */
  function SlotFor(index: nat): (s: Slot)
    requires index < INODE_MAX_SECTOR
    ensures ValidSlot(s)
  {
    if index < DIRECT_LIMIT then Direct(index)
    else if index < SINGLE_INDIRECT_LIMIT then Single(index - DIRECT_LIMIT)
    else Double((index - SINGLE_INDIRECT_LIMIT) / SECTOR_CAPACITY, (index - SINGLE_INDIRECT_LIMIT) % SECTOR_CAPACITY)
  }

  /** The block index a slot serves. */
  function IndexOf(s: Slot): (index: nat)
    requires ValidSlot(s)
    ensures index < INODE_MAX_SECTOR
  {
    match s
    case Direct(i) => i
    case Single(i) => DIRECT_LIMIT + i
    case Double(o, i) => SINGLE_INDIRECT_LIMIT + o * SECTOR_CAPACITY + i
  }

  /** The three ranges partition the block indexes: direct below 12,
      single-indirect below 140, double-indirect up to 16524, and every
      slot serves exactly one index. */
  lemma SlotPartition(index: nat)
    requires index < INODE_MAX_SECTOR
    ensures SlotFor(index).Direct? <==> index < DIRECT_LIMIT
    ensures SlotFor(index).Single? <==> DIRECT_LIMIT <= index < SINGLE_INDIRECT_LIMIT
    ensures SlotFor(index).Double? <==> SINGLE_INDIRECT_LIMIT <= index
    ensures IndexOf(SlotFor(index)) == index
  {
  }

  /** Distinct valid slots serve distinct indexes, and every valid slot
      is the slot of its index. */
  lemma SlotOfIndex(s: Slot)
    requires ValidSlot(s)
    ensures SlotFor(IndexOf(s)) == s
  {
    if s.Double? {
      var k := s.outer * SECTOR_CAPACITY + s.inner;
      assert k / SECTOR_CAPACITY == s.outer && k % SECTOR_CAPACITY == s.inner;
    }
  }

  /** Slot k of the second-level table: the pointer at outer slot o of the
      double-indirect sector, or the sentinel when there is none. */
  function Second(d: DiskInode, blocks: seq<seq<byte>>, o: nat): u32
    requires Sized(blocks) && o < SECTOR_CAPACITY && (d.double != SENTINEL ==> d.double < |blocks|)
  {
    if d.double == SENTINEL then SENTINEL else Word(blocks[d.double], o)
  }

  /** Every index sector the record reaches lies on the device. */
  ghost predicate Readable(d: DiskInode, blocks: seq<seq<byte>>)
  {
    WellFormed(d) && Sized(blocks)
    && (d.single != SENTINEL ==> d.single < |blocks|)
    && (d.double != SENTINEL ==> d.double < |blocks|)
    && forall o :: 0 <= o < SECTOR_CAPACITY ==> Second(d, blocks, o) == SENTINEL || Second(d, blocks, o) < |blocks|
  }

  /** The data sector of block index, or the sentinel when the block, or
      the index sector it would be found in, is unallocated. */
  function BlockAt(d: DiskInode, blocks: seq<seq<byte>>, index: nat): u32
    requires Readable(d, blocks) && index < INODE_MAX_SECTOR
  {
    match SlotFor(index)
    case Direct(i) => d.direct[i]
    case Single(i) => if d.single == SENTINEL then SENTINEL else Word(blocks[d.single], i)
    case Double(o, i) =>
      var l := Second(d, blocks, o);
      if l == SENTINEL then SENTINEL else Word(blocks[l], i)
  }

  /** get_sector: the data sector holding byte pos. */
  function GetSector(d: DiskInode, blocks: seq<seq<byte>>, pos: nat): u32
    requires Readable(d, blocks) && pos < MAX_LENGTH
  {
    BlockAt(d, blocks, pos / BLOCK_SECTOR_SIZE)
  }

  /** get_sector reads the slot of byte pos's block, and gives the
      sentinel when the index sector that slot lives in is unallocated. */
  lemma GetSectorSlot(d: DiskInode, blocks: seq<seq<byte>>, pos: nat)
    requires Readable(d, blocks) && pos < MAX_LENGTH
    ensures var index := pos / BLOCK_SECTOR_SIZE;
      && (index < DIRECT_LIMIT ==> GetSector(d, blocks, pos) == d.direct[index])
      && (DIRECT_LIMIT <= index < SINGLE_INDIRECT_LIMIT ==>
            GetSector(d, blocks, pos) == if d.single == SENTINEL then SENTINEL
                                         else Word(blocks[d.single], index - DIRECT_LIMIT))
      && (SINGLE_INDIRECT_LIMIT <= index ==>
            var o := (index - SINGLE_INDIRECT_LIMIT) / SECTOR_CAPACITY;
            var l := Second(d, blocks, o);
            GetSector(d, blocks, pos) == if l == SENTINEL then SENTINEL
                                         else Word(blocks[l], (index - SINGLE_INDIRECT_LIMIT) % SECTOR_CAPACITY))
  {
  }

  /** byte_to_sector: get_sector below the length, the sentinel (-1)
      from the length on. */
  function ByteToSector(d: DiskInode, blocks: seq<seq<byte>>, pos: nat): (s: u32)
    requires Readable(d, blocks) && d.length <= MAX_LENGTH
    ensures pos >= d.length ==> s == SENTINEL
  {
    if pos < d.length then GetSector(d, blocks, pos) else SENTINEL
  }

  /** The index sectors the record reaches: single-indirect,
      double-indirect, then the 128 second-level slots. */
  function IndexPtrs(d: DiskInode, blocks: seq<seq<byte>>): (p: seq<u32>)
    requires Readable(d, blocks)
    ensures |p| == 2 + SECTOR_CAPACITY
  {
    [d.single, d.double] + seq(SECTOR_CAPACITY, o requires 0 <= o < SECTOR_CAPACITY => Second(d, blocks, o))
  }

  /** The data sector of every block index. */
  function DataPtrs(d: DiskInode, blocks: seq<seq<byte>>): (p: seq<u32>)
    requires Readable(d, blocks)
    ensures |p| == INODE_MAX_SECTOR
    ensures forall i :: 0 <= i < INODE_MAX_SECTOR ==> p[i] == BlockAt(d, blocks, i)
  {
    seq(INODE_MAX_SECTOR, i requires 0 <= i < INODE_MAX_SECTOR => BlockAt(d, blocks, i))
  }

  /** Every sector the inode owns, index sectors first, the sentinel
      where nothing is allocated. */
  function Pointers(d: DiskInode, blocks: seq<seq<byte>>): (p: seq<u32>)
    requires Readable(d, blocks)
    ensures |p| == 2 + SECTOR_CAPACITY + INODE_MAX_SECTOR
  {
    IndexPtrs(d, blocks) + DataPtrs(d, blocks)
  }

  /** Position of block index's data pointer in Pointers. */
  function DataPos(index: nat): nat
  {
    2 + SECTOR_CAPACITY + index
  }

  /** The allocated entries of p lie on the device, are in use in the
      free map, differ from the record's own sector and from each other. */
  ghost predicate Owned(p: seq<u32>, bits: seq<bool>, isector: nat)
  {
    (forall a :: 0 <= a < |p| && p[a] != SENTINEL ==> p[a] < |bits| && bits[p[a]] && p[a] != isector)
    && Unique(p)
  }

  /** No allocated entry of p appears twice. The pairs are compared
      through Apart, so that a proof names the pairs it needs. */
  ghost predicate Unique(p: seq<u32>)
  {
    forall a, b {:trigger Apart(p, a, b)} :: 0 <= a < b < |p| && p[a] != SENTINEL ==> Apart(p, a, b)
  }

  /** Entries a and b of p differ. */
  predicate Apart(p: seq<u32>, a: nat, b: nat)
    requires a < |p| && b < |p|
  {
    p[a] != p[b]
  }

  /** Two different allocated entries of a unique p differ. */
  lemma Distinct(p: seq<u32>, a: nat, b: nat)
    requires Unique(p) && a < |p| && b < |p| && a != b && p[a] != SENTINEL
    ensures p[a] != p[b]
  {
    if a < b {
      assert Apart(p, a, b);
    } else if p[b] != SENTINEL {
      assert Apart(p, b, a);
    }
  }

  /** An inode tree in good order: its index readable, no longer than the
      index can address, every sector it owns allocated and owned once,
      and its record sector allocated. */
  ghost predicate Tree(d: DiskInode, blocks: seq<seq<byte>>, bits: seq<bool>, isector: nat)
  {
    Readable(d, blocks) && |bits| == |blocks| && isector < |bits| && bits[isector] && isector != SENTINEL
    && d.length as nat <= MAX_LENGTH
    && Owned(Pointers(d, blocks), bits, isector)
  }

  /** Every data pointer lies on the device. */
  ghost predicate Mapped(d: DiskInode, blocks: seq<seq<byte>>)
  {
    Readable(d, blocks)
    && forall i :: 0 <= i < INODE_MAX_SECTOR ==> BlockAt(d, blocks, i) == SENTINEL || BlockAt(d, blocks, i) < |blocks|
  }

  lemma TreeMapped(d: DiskInode, blocks: seq<seq<byte>>, bits: seq<bool>, isector: nat)
    requires Tree(d, blocks, bits, isector)
    ensures Mapped(d, blocks)
  {
    var p := Pointers(d, blocks);
    forall i | 0 <= i < INODE_MAX_SECTOR ensures BlockAt(d, blocks, i) == SENTINEL || BlockAt(d, blocks, i) < |blocks| {
      assert p[DataPos(i)] == BlockAt(d, blocks, i);
    }
  }

  /** No block at or past the length's last sector is allocated. */
  ghost predicate Trimmed(d: DiskInode, blocks: seq<seq<byte>>, len: nat)
    requires Readable(d, blocks)
  {
    forall i :: SectorsOf(len) <= i < INODE_MAX_SECTOR ==> BlockAt(d, blocks, i) == SENTINEL
  }

  /** The byte at pos: zero in a hole, else the byte of its data sector. */
  function Content(d: DiskInode, blocks: seq<seq<byte>>, pos: nat): byte
    requires Mapped(d, blocks) && pos < MAX_LENGTH
  {
    var s := GetSector(d, blocks, pos);
    if s == SENTINEL then 0 else blocks[s][pos % BLOCK_SECTOR_SIZE]
  }

  /** An index sector as memset (buf, 0xff, ...) leaves it: every slot the sentinel. */
  function Fill(): (b: seq<byte>)
    ensures |b| == BLOCK_SECTOR_SIZE
    ensures forall k :: 0 <= k < SECTOR_CAPACITY ==> Word(b, k) == SENTINEL
  {
    var b := seq(BLOCK_SECTOR_SIZE, _ => 255);
    assert forall k :: 0 <= k < SECTOR_CAPACITY ==> Word(b, k) == SENTINEL by {
      forall k | 0 <= k < SECTOR_CAPACITY ensures Word(b, k) == SENTINEL {
        AllOnesAreSentinels(b, k);
      }
    }
    b
  }

  /** An index sector read into memory, slot k set to v, and written back. */
  function SetWord(b: seq<byte>, k: nat, v: u32): (r: seq<byte>)
    requires |b| == BLOCK_SECTOR_SIZE && k < SECTOR_CAPACITY
    ensures |r| == BLOCK_SECTOR_SIZE
    ensures forall j :: 0 <= j < SECTOR_CAPACITY ==> Word(r, j) == if j == k then v else Word(b, j)
  {
    var r := b[4 * k := ByteOf(v, 0)][4 * k + 1 := ByteOf(v, 1)][4 * k + 2 := ByteOf(v, 2)][4 * k + 3 := ByteOf(v, 3)];
    assert forall j :: 0 <= j < SECTOR_CAPACITY ==> Word(r, j) == if j == k then v else Word(b, j) by {
      forall j | 0 <= j < SECTOR_CAPACITY ensures Word(r, j) == if j == k then v else Word(b, j) {
        if j == k {
          Reassemble(v);
        } else {
          assert r[4 * j] == b[4 * j] && r[4 * j + 1] == b[4 * j + 1];
          assert r[4 * j + 2] == b[4 * j + 2] && r[4 * j + 3] == b[4 * j + 3];
        }
      }
    }
    r
  }

  /** Writing a sector that holds none of the inode's index sectors leaves
      every pointer of the inode as it was. */
  lemma WriteOther(d: DiskInode, blocks: seq<seq<byte>>, x: nat, data: seq<byte>)
    requires Readable(d, blocks) && x < |blocks| && |data| == BLOCK_SECTOR_SIZE
    requires forall a :: 0 <= a < |IndexPtrs(d, blocks)| ==> IndexPtrs(d, blocks)[a] != x
    ensures Readable(d, blocks[x := data])
    ensures IndexPtrs(d, blocks[x := data]) == IndexPtrs(d, blocks)
    ensures Pointers(d, blocks[x := data]) == Pointers(d, blocks)
  {
    var b2 := blocks[x := data];
    var p := IndexPtrs(d, blocks);
    assert p[0] == d.single && p[1] == d.double;
    forall o | 0 <= o < SECTOR_CAPACITY ensures Second(d, b2, o) == Second(d, blocks, o) {
    }
    forall o | 0 <= o < SECTOR_CAPACITY ensures Second(d, blocks, o) != x {
      assert p[2 + o] == Second(d, blocks, o);
    }
    assert IndexPtrs(d, b2) == p;
    forall i | 0 <= i < INODE_MAX_SECTOR ensures BlockAt(d, b2, i) == BlockAt(d, blocks, i) {
    }
  }

  /** The index sectors are among the pointers, so they are unique when
      the pointers are. */
  lemma UniqueIndex(d: DiskInode, blocks: seq<seq<byte>>)
    requires Readable(d, blocks) && Unique(Pointers(d, blocks))
    ensures Unique(IndexPtrs(d, blocks))
  {
    var p := Pointers(d, blocks);
    var q := IndexPtrs(d, blocks);
    forall a, b | 0 <= a < b < |q| && q[a] != SENTINEL ensures Apart(q, a, b) {
      assert p[a] == q[a] && p[b] == q[b];
      Distinct(p, a, b);
    }
  }

  /** extend_inode in the direct range: the record's slot i takes s. */
  lemma SetDirect(d: DiskInode, blocks: seq<seq<byte>>, i: nat, s: u32)
    requires Readable(d, blocks) && i < DIRECT_LIMIT
    ensures Readable(d.(direct := d.direct[i := s]), blocks)
    ensures Pointers(d.(direct := d.direct[i := s]), blocks) == Pointers(d, blocks)[DataPos(i) := s]
  {
    var d2 := d.(direct := d.direct[i := s]);
    forall o | 0 <= o < SECTOR_CAPACITY ensures Second(d2, blocks, o) == Second(d, blocks, o) {
    }
    assert IndexPtrs(d2, blocks) == IndexPtrs(d, blocks);
    forall j | 0 <= j < INODE_MAX_SECTOR ensures BlockAt(d2, blocks, j) == if j == i then s else BlockAt(d, blocks, j) {
    }
  }

  /** A fresh single-indirect sector, every slot the sentinel, reads like
      no single-indirect sector at all. */
  lemma NewSingle(d: DiskInode, blocks: seq<seq<byte>>, t: u32)
    requires Readable(d, blocks) && d.single == SENTINEL && t < |blocks|
    requires forall a :: 0 <= a < |IndexPtrs(d, blocks)| ==> IndexPtrs(d, blocks)[a] != t
    ensures Readable(d.(single := t), blocks[t := Fill()])
    ensures Pointers(d.(single := t), blocks[t := Fill()]) == Pointers(d, blocks)[0 := t]
  {
    var d2, b2 := d.(single := t), blocks[t := Fill()];
    var q := IndexPtrs(d, blocks);
    assert q[1] == d.double;
    forall o | 0 <= o < SECTOR_CAPACITY ensures Second(d2, b2, o) == Second(d, blocks, o) {
    }
    forall o | 0 <= o < SECTOR_CAPACITY ensures Second(d, blocks, o) != t {
      assert q[2 + o] == Second(d, blocks, o);
    }
    assert IndexPtrs(d2, b2) == q[0 := t];
    forall j | 0 <= j < INODE_MAX_SECTOR ensures BlockAt(d2, b2, j) == BlockAt(d, blocks, j) {
    }
  }

  /** extend_inode in the single-indirect range: slot i of the
      single-indirect sector takes v. */
  lemma SetSingle(d: DiskInode, blocks: seq<seq<byte>>, i: nat, v: u32)
    requires Readable(d, blocks) && d.single != SENTINEL && i < SECTOR_CAPACITY
    requires Unique(IndexPtrs(d, blocks))
    ensures Readable(d, blocks[d.single := SetWord(blocks[d.single], i, v)])
    ensures Pointers(d, blocks[d.single := SetWord(blocks[d.single], i, v)])
            == Pointers(d, blocks)[DataPos(DIRECT_LIMIT + i) := v]
  {
    var b2 := blocks[d.single := SetWord(blocks[d.single], i, v)];
    var q := IndexPtrs(d, blocks);
    assert q[0] == d.single && q[1] == d.double;
    Distinct(q, 0, 1);
    forall o | 0 <= o < SECTOR_CAPACITY ensures Second(d, blocks, o) != d.single {
      assert q[2 + o] == Second(d, blocks, o);
      Distinct(q, 0, 2 + o);
    }
    forall o | 0 <= o < SECTOR_CAPACITY ensures Second(d, b2, o) == Second(d, blocks, o) {
    }
    assert IndexPtrs(d, b2) == q;
    forall j | 0 <= j < INODE_MAX_SECTOR
      ensures BlockAt(d, b2, j) == if j == DIRECT_LIMIT + i then v else BlockAt(d, blocks, j)
    {
    }
  }

  /** A fresh double-indirect sector, every slot the sentinel, reads like
      no double-indirect sector at all. */
  lemma NewDouble(d: DiskInode, blocks: seq<seq<byte>>, t: u32)
    requires Readable(d, blocks) && d.double == SENTINEL && t < |blocks|
    requires forall a :: 0 <= a < |IndexPtrs(d, blocks)| ==> IndexPtrs(d, blocks)[a] != t
    ensures Readable(d.(double := t), blocks[t := Fill()])
    ensures Pointers(d.(double := t), blocks[t := Fill()]) == Pointers(d, blocks)[1 := t]
  {
    var d2, b2 := d.(double := t), blocks[t := Fill()];
    var q := IndexPtrs(d, blocks);
    assert q[0] == d.single;
    forall o | 0 <= o < SECTOR_CAPACITY ensures Second(d2, b2, o) == SENTINEL == Second(d, blocks, o) {
    }
    assert IndexPtrs(d2, b2) == q[1 := t];
    forall j | 0 <= j < INODE_MAX_SECTOR ensures BlockAt(d2, b2, j) == BlockAt(d, blocks, j) {
    }
  }

  /** A fresh second-level sector u at outer slot o, every slot the
      sentinel, reads like no second-level sector there. */
  lemma NewSecond(d: DiskInode, blocks: seq<seq<byte>>, o: nat, u: u32)
    requires Readable(d, blocks) && d.double != SENTINEL && o < SECTOR_CAPACITY
    requires Second(d, blocks, o) == SENTINEL && u < |blocks| && u != SENTINEL
    requires Unique(IndexPtrs(d, blocks))
    requires forall a :: 0 <= a < |IndexPtrs(d, blocks)| ==> IndexPtrs(d, blocks)[a] != u
    ensures Readable(d, blocks[d.double := SetWord(blocks[d.double], o, u)][u := Fill()])
    ensures Pointers(d, blocks[d.double := SetWord(blocks[d.double], o, u)][u := Fill()])
            == Pointers(d, blocks)[2 + o := u]
  {
    var b2 := blocks[d.double := SetWord(blocks[d.double], o, u)][u := Fill()];
    LinkSecond(d, blocks, b2, o, u);
    PointersFrom(d, blocks, b2, IndexPtrs(d, blocks)[2 + o := u]);
    UpdateFront(IndexPtrs(d, blocks), DataPtrs(d, blocks), 2 + o, u);
  }

  /** Linking a fresh second-level sector u at outer slot o: the index
      pointers take u there and no data pointer changes. */
  lemma LinkSecond(d: DiskInode, blocks: seq<seq<byte>>, b2: seq<seq<byte>>, o: nat, u: u32)
    requires Readable(d, blocks) && d.double != SENTINEL && o < SECTOR_CAPACITY
    requires Second(d, blocks, o) == SENTINEL && u < |blocks| && u != SENTINEL
    requires Unique(IndexPtrs(d, blocks))
    requires forall a :: 0 <= a < |IndexPtrs(d, blocks)| ==> IndexPtrs(d, blocks)[a] != u
    requires b2 == blocks[d.double := SetWord(blocks[d.double], o, u)][u := Fill()]
    ensures Readable(d, b2)
    ensures IndexPtrs(d, b2) == IndexPtrs(d, blocks)[2 + o := u]
    ensures forall j :: 0 <= j < INODE_MAX_SECTOR ==> BlockAt(d, b2, j) == BlockAt(d, blocks, j)
  {
    var q := IndexPtrs(d, blocks);
    assert q[0] == d.single && q[1] == d.double;
    assert u != d.double && b2[u] == Fill();
    SecondAfterLink(d, blocks, b2, o, u);
    NewSecondBlocks(d, blocks, b2, o, u);
    assert IndexPtrs(d, b2) == q[2 + o := u];
  }

  /** Equal data pointers: the pointers after are the new index pointers
      followed by the old data pointers. */
  lemma PointersFrom(d: DiskInode, blocks: seq<seq<byte>>, b2: seq<seq<byte>>, q2: seq<u32>)
    requires Readable(d, blocks) && Readable(d, b2) && IndexPtrs(d, b2) == q2
    requires forall j :: 0 <= j < INODE_MAX_SECTOR ==> BlockAt(d, b2, j) == BlockAt(d, blocks, j)
    ensures Pointers(d, b2) == q2 + DataPtrs(d, blocks)
  {
    assert DataPtrs(d, b2) == DataPtrs(d, blocks);
  }

  /** Updating the front part of a concatenation. */
  lemma UpdateFront(q: seq<u32>, r: seq<u32>, k: nat, x: u32)
    requires k < |q|
    ensures (q + r)[k := x] == q[k := x] + r
  {
  }

  /** A fresh second-level sector, every slot the sentinel, maps no data
      block: linking it changes no data pointer. */
  lemma NewSecondBlocks(d: DiskInode, blocks: seq<seq<byte>>, b2: seq<seq<byte>>, o: nat, u: u32)
    requires Readable(d, blocks) && Readable(d, b2) && o < SECTOR_CAPACITY && u < |b2| && b2[u] == Fill()
    requires forall k :: 0 <= k < SECTOR_CAPACITY ==> Second(d, b2, k) == if k == o then u else Second(d, blocks, k)
    requires forall k :: 0 <= k < SECTOR_CAPACITY && k != o && Second(d, blocks, k) != SENTINEL ==>
               b2[Second(d, blocks, k)] == blocks[Second(d, blocks, k)]
    requires d.single != SENTINEL ==> b2[d.single] == blocks[d.single]
    requires Second(d, blocks, o) == SENTINEL
    ensures forall j :: 0 <= j < INODE_MAX_SECTOR ==> BlockAt(d, b2, j) == BlockAt(d, blocks, j)
  {
    forall j | 0 <= j < INODE_MAX_SECTOR ensures BlockAt(d, b2, j) == BlockAt(d, blocks, j) {
      match SlotFor(j)
      case Direct(_) =>
      case Single(_) =>
      case Double(k, i) =>
        if k == o {
          assert Word(b2[u], i) == SENTINEL;
        }
    }
  }

  /** After linking u at outer slot o, the second-level slots read u there
      and as before elsewhere, and the other index sectors are untouched. */
  lemma SecondAfterLink(d: DiskInode, blocks: seq<seq<byte>>, b2: seq<seq<byte>>, o: nat, u: u32)
    requires Readable(d, blocks) && d.double != SENTINEL && o < SECTOR_CAPACITY
    requires Second(d, blocks, o) == SENTINEL && u < |blocks| && u != SENTINEL
    requires Unique(IndexPtrs(d, blocks))
    requires forall a :: 0 <= a < |IndexPtrs(d, blocks)| ==> IndexPtrs(d, blocks)[a] != u
    requires b2 == blocks[d.double := SetWord(blocks[d.double], o, u)][u := Fill()]
    ensures Readable(d, b2)
    ensures forall k :: 0 <= k < SECTOR_CAPACITY ==> Second(d, b2, k) == if k == o then u else Second(d, blocks, k)
    ensures forall k :: 0 <= k < SECTOR_CAPACITY && k != o && Second(d, blocks, k) != SENTINEL ==>
              b2[Second(d, blocks, k)] == blocks[Second(d, blocks, k)]
    ensures d.single != SENTINEL ==> b2[d.single] == blocks[d.single]
  {
    var q := IndexPtrs(d, blocks);
    var top := SetWord(blocks[d.double], o, u);
    assert q[0] == d.single && q[1] == d.double;
    Distinct(q, 1, 0);
    assert Sized(b2) by {
      forall x | 0 <= x < |b2| ensures |b2[x]| == BLOCK_SECTOR_SIZE {
        if x != u && x != d.double { assert b2[x] == blocks[x]; }
      }
    }
    assert b2[d.double] == top;
    forall k | 0 <= k < SECTOR_CAPACITY ensures Second(d, blocks, k) != d.double && Second(d, blocks, k) != u {
      assert q[2 + k] == Second(d, blocks, k);
      Distinct(q, 1, 2 + k);
    }
    forall k | 0 <= k < SECTOR_CAPACITY ensures Second(d, b2, k) == if k == o then u else Second(d, blocks, k) {
      assert Second(d, b2, k) == Word(top, k);
    }
  }

  /** extend_inode in the double-indirect range: inner slot i of the
      second-level sector at outer slot o takes v. */
  lemma SetDouble(d: DiskInode, blocks: seq<seq<byte>>, o: nat, i: nat, v: u32)
    requires Readable(d, blocks) && o < SECTOR_CAPACITY && i < SECTOR_CAPACITY
    requires Second(d, blocks, o) != SENTINEL
    requires Unique(IndexPtrs(d, blocks))
    ensures Readable(d, blocks[Second(d, blocks, o) := SetWord(blocks[Second(d, blocks, o)], i, v)])
    ensures Pointers(d, blocks[Second(d, blocks, o) := SetWord(blocks[Second(d, blocks, o)], i, v)])
            == Pointers(d, blocks)[DataPos(SINGLE_INDIRECT_LIMIT + o * SECTOR_CAPACITY + i) := v]
  {
    var l := Second(d, blocks, o);
    var b2 := blocks[l := SetWord(blocks[l], i, v)];
    var q := IndexPtrs(d, blocks);
    assert q[0] == d.single && q[1] == d.double && q[2 + o] == l;
    Distinct(q, 2 + o, 0);
    Distinct(q, 2 + o, 1);
    forall k | 0 <= k < SECTOR_CAPACITY && k != o ensures Second(d, blocks, k) != l {
      assert q[2 + k] == Second(d, blocks, k);
      Distinct(q, 2 + o, 2 + k);
    }
    forall k | 0 <= k < SECTOR_CAPACITY ensures Second(d, b2, k) == Second(d, blocks, k) {
    }
    assert IndexPtrs(d, b2) == q;
    DoubleBlocks(d, blocks, b2, o, i, v);
  }

  /** The data pointers after slot i of second-level sector o takes v:
      only block index 140 + 128 * o + i changes. */
  lemma DoubleBlocks(d: DiskInode, blocks: seq<seq<byte>>, b2: seq<seq<byte>>, o: nat, i: nat, v: u32)
    requires Readable(d, blocks) && Readable(d, b2) && o < SECTOR_CAPACITY && i < SECTOR_CAPACITY
    requires Second(d, blocks, o) != SENTINEL
    requires b2 == blocks[Second(d, blocks, o) := SetWord(blocks[Second(d, blocks, o)], i, v)]
    requires d.single != SENTINEL ==> d.single != Second(d, blocks, o)
    requires forall k :: 0 <= k < SECTOR_CAPACITY ==> Second(d, b2, k) == Second(d, blocks, k)
    requires forall k :: 0 <= k < SECTOR_CAPACITY && k != o ==> Second(d, blocks, k) != Second(d, blocks, o)
    ensures forall j :: 0 <= j < INODE_MAX_SECTOR ==>
              BlockAt(d, b2, j) == if j == SINGLE_INDIRECT_LIMIT + o * SECTOR_CAPACITY + i then v else BlockAt(d, blocks, j)
  {
    var target := SINGLE_INDIRECT_LIMIT + o * SECTOR_CAPACITY + i;
    SlotOfIndex(Double(o, i));
    forall j | 0 <= j < INODE_MAX_SECTOR ensures BlockAt(d, b2, j) == if j == target then v else BlockAt(d, blocks, j) {
      SlotPartition(j);
    }
  }

  /** Giving an unallocated entry of p a sector that was free keeps p
      owned once that sector is marked in use. */
  lemma OwnedStep(p: seq<u32>, bits: seq<bool>, isector: nat, a: nat, x: u32)
    requires Owned(p, bits, isector) && isector < |bits| && bits[isector]
    requires a < |p| && p[a] == SENTINEL && x != SENTINEL && x < |bits| && !bits[x]
    ensures Owned(p[a := x], bits[x := true], isector)
  {
    var p2 := p[a := x];
    forall b | 0 <= b < |p| && p[b] != SENTINEL ensures p[b] != x {
    }
    forall b, c | 0 <= b < c < |p2| && p2[b] != SENTINEL ensures Apart(p2, b, c) {
      if b != a && c != a {
        assert p2[b] == p[b] && p2[c] == p[c];
        Distinct(p, b, c);
      }
    }
  }

  /** A sector that is free is none of the sectors an owned p holds. */
  lemma FreeNotOwned(p: seq<u32>, bits: seq<bool>, isector: nat, x: nat)
    requires Owned(p, bits, isector) && x < |bits| && !bits[x] && x != SENTINEL
    ensures forall a :: 0 <= a < |p| ==> p[a] != x
  {
  }

  /** Sectors extend_inode needs to allocate for block index: the data
      sector, plus each index sector on the way that is not there yet. */
  function Needed(d: DiskInode, blocks: seq<seq<byte>>, index: nat): (n: nat)
    requires Readable(d, blocks) && index < INODE_MAX_SECTOR
    ensures 1 <= n <= 3
  {
    match SlotFor(index)
    case Direct(_) => 1
    case Single(_) => if d.single == SENTINEL then 2 else 1
    case Double(o, _) =>
      (if d.double == SENTINEL then 1 else 0) + (if Second(d, blocks, o) == SENTINEL then 1 else 0) + 1
  }

  /** The outcome of a successful extend_inode for block index: the block
      maps to the fresh zero-filled sector, every other block maps where it
      did, the record is written to its sector, the index sectors needed
      are allocated, and no other in-use sector changes. */
  ghost predicate Grown(d: DiskInode, blocks: seq<seq<byte>>, bits: seq<bool>, isector: nat, index: nat,
                        d2: DiskInode, blocks2: seq<seq<byte>>, bits2: seq<bool>, sector: u32)
    requires Tree(d, blocks, bits, isector) && index < INODE_MAX_SECTOR
  {
    Tree(d2, blocks2, bits2, isector) && |blocks2| == |blocks|
    && d2.length == d.length && d2.parent == d.parent && d2.magic == d.magic
    && sector != SENTINEL && sector < |bits| && !bits[sector]
    && BlockAt(d2, blocks2, index) == sector
    && (forall j :: 0 <= j < INODE_MAX_SECTOR && j != index ==> BlockAt(d2, blocks2, j) == BlockAt(d, blocks, j))
    && blocks2[sector] == Zeros(BLOCK_SECTOR_SIZE) && blocks2[isector] == EncodeInode(d2)
    && (forall x :: 0 <= x < |blocks| && bits[x] && x != isector && x !in IndexPtrs(d, blocks) ==> blocks2[x] == blocks[x])
    && Grew(bits, bits2, Needed(d, blocks, index))
  }

  /** Extending a file changes none of its bytes: the new block was a
      hole, read as zeros, and is now a zero-filled sector. */
  lemma GrownContent(d: DiskInode, blocks: seq<seq<byte>>, bits: seq<bool>, isector: nat, index: nat,
                     d2: DiskInode, blocks2: seq<seq<byte>>, bits2: seq<bool>, sector: u32)
    requires Tree(d, blocks, bits, isector) && index < INODE_MAX_SECTOR
    requires BlockAt(d, blocks, index) == SENTINEL
    requires Grown(d, blocks, bits, isector, index, d2, blocks2, bits2, sector)
    ensures Mapped(d, blocks) && Mapped(d2, blocks2)
    ensures forall pos :: 0 <= pos < MAX_LENGTH ==> Content(d2, blocks2, pos) == Content(d, blocks, pos)
  {
    TreeMapped(d, blocks, bits, isector);
    TreeMapped(d2, blocks2, bits2, isector);
    var p := Pointers(d, blocks);
    forall pos | 0 <= pos < MAX_LENGTH ensures Content(d2, blocks2, pos) == Content(d, blocks, pos) {
      var k := pos / BLOCK_SECTOR_SIZE;
      if k != index {
        var s := BlockAt(d, blocks, k);
        if s != SENTINEL {
          assert p[DataPos(k)] == s;
          forall a | 0 <= a < |IndexPtrs(d, blocks)| ensures IndexPtrs(d, blocks)[a] != s {
            assert p[a] == IndexPtrs(d, blocks)[a];
            Distinct(p, DataPos(k), a);
          }
        }
      }
    }
  }

  /** Completing a staged extension grows the file without changing any
      byte it reads as. */
  lemma CommitContent(d: DiskInode, blocks: seq<seq<byte>>, bits: seq<bool>, isector: nat, index: nat,
                      d2: DiskInode, blocks1: seq<seq<byte>>, bits1: seq<bool>, sector: u32)
    requires Tree(d, blocks, bits, isector) && index < INODE_MAX_SECTOR
    requires BlockAt(d, blocks, index) == SENTINEL
    requires Staged(d, blocks, bits, isector, index, d2, blocks1, bits1, sector)
    ensures var b2 := blocks1[sector := Zeros(BLOCK_SECTOR_SIZE)][isector := EncodeInode(d2)];
            Grown(d, blocks, bits, isector, index, d2, b2, bits1, sector)
            && Pointers(d2, b2) == Pointers(d2, blocks1)
            && Mapped(d, blocks) && Mapped(d2, b2)
            && forall pos :: 0 <= pos < MAX_LENGTH ==> Content(d2, b2, pos) == Content(d, blocks, pos)
  {
    var b2 := blocks1[sector := Zeros(BLOCK_SECTOR_SIZE)][isector := EncodeInode(d2)];
    CommitGrown(d, blocks, bits, isector, index, d2, blocks1, bits1, sector);
    GrownContent(d, blocks, bits, isector, index, d2, b2, bits1, sector);
  }

  /** Entry DataPos(index) of Pointers is the data sector of block index. */
  lemma PointerOfBlock(d: DiskInode, blocks: seq<seq<byte>>, index: nat)
    requires Readable(d, blocks) && index < INODE_MAX_SECTOR
    ensures Pointers(d, blocks)[DataPos(index)] == BlockAt(d, blocks, index)
  {
  }

  /** extend_inode after its index sectors are written and before the data
      sector is zeroed and the record written: the pointers are those of d
      with index's block and any new index sectors filled in by fresh
      sectors, and only fresh or index sectors of d were written. */
  ghost predicate Staged(d: DiskInode, blocks: seq<seq<byte>>, bits: seq<bool>, isector: nat, index: nat,
                         d2: DiskInode, blocks1: seq<seq<byte>>, bits1: seq<bool>, sector: u32)
    requires Tree(d, blocks, bits, isector) && index < INODE_MAX_SECTOR
  {
    Readable(d2, blocks1) && |blocks1| == |blocks| && |bits1| == |bits|
    && Owned(Pointers(d2, blocks1), bits1, isector)
    && d2.length == d.length && d2.parent == d.parent && d2.magic == d.magic
    && sector != SENTINEL && sector < |bits| && !bits[sector]
    && DataMoved(Pointers(d, blocks), Pointers(d2, blocks1), index, sector)
    && Untouched(blocks, blocks1, bits, isector, IndexPtrs(d, blocks))
    && Grew(bits, bits1, Needed(d, blocks, index))
  }

  /** Zeroing the new data sector and writing the record completes the
      extension. */
  lemma CommitGrown(d: DiskInode, blocks: seq<seq<byte>>, bits: seq<bool>, isector: nat, index: nat,
                    d2: DiskInode, blocks1: seq<seq<byte>>, bits1: seq<bool>, sector: u32)
    requires Tree(d, blocks, bits, isector) && index < INODE_MAX_SECTOR
    requires Staged(d, blocks, bits, isector, index, d2, blocks1, bits1, sector)
    ensures Grown(d, blocks, bits, isector, index, d2,
                  blocks1[sector := Zeros(BLOCK_SECTOR_SIZE)][isector := EncodeInode(d2)], bits1, sector)
    ensures Pointers(d2, blocks1[sector := Zeros(BLOCK_SECTOR_SIZE)][isector := EncodeInode(d2)]) == Pointers(d2, blocks1)
  {
    var p1 := Pointers(d2, blocks1);
    var q1 := IndexPtrs(d2, blocks1);
    forall a | 0 <= a < |q1| ensures q1[a] != sector && q1[a] != isector {
      assert p1[a] == q1[a];
      Distinct(p1, DataPos(index), a);
    }
    var bz := blocks1[sector := Zeros(BLOCK_SECTOR_SIZE)];
    WriteOther(d2, blocks1, sector, Zeros(BLOCK_SECTOR_SIZE));
    WriteOther(d2, bz, isector, EncodeInode(d2));
    var b2 := bz[isector := EncodeInode(d2)];
    forall j | 0 <= j < INODE_MAX_SECTOR
      ensures BlockAt(d2, b2, j) == if j == index then sector else BlockAt(d, blocks, j)
    {
      PointerOfBlock(d2, b2, j);
      PointerOfBlock(d, blocks, j);
    }
    assert sector != isector;
  }

  /** Linking free sector s into slot i of an existing single-indirect
      sector fills block DIRECT_LIMIT + i and keeps the pointers owned. */
  lemma LinkSingle(d: DiskInode, blocks: seq<seq<byte>>, bits: seq<bool>, isector: nat, i: nat, s: u32)
    requires Readable(d, blocks) && Owned(Pointers(d, blocks), bits, isector) && isector < |bits| && bits[isector]
    requires d.single != SENTINEL && i < SECTOR_CAPACITY
    requires Pointers(d, blocks)[DataPos(DIRECT_LIMIT + i)] == SENTINEL
    requires s != SENTINEL && s < |bits| && !bits[s]
    ensures Readable(d, blocks[d.single := SetWord(blocks[d.single], i, s)])
    ensures Pointers(d, blocks[d.single := SetWord(blocks[d.single], i, s)]) == Pointers(d, blocks)[DataPos(DIRECT_LIMIT + i) := s]
    ensures Owned(Pointers(d, blocks[d.single := SetWord(blocks[d.single], i, s)]), bits[s := true], isector)
  {
    UniqueIndex(d, blocks);
    SetSingle(d, blocks, i, s);
    OwnedStep(Pointers(d, blocks), bits, isector, DataPos(DIRECT_LIMIT + i), s);
  }

  /** extend_inode in the direct range: the free sector s becomes the
      record's direct pointer for block index. */
  lemma DirectStaged(d: DiskInode, blocks: seq<seq<byte>>, bits: seq<bool>, isector: nat, index: nat, s: u32,
                     bits1: seq<bool>)
    requires Tree(d, blocks, bits, isector) && index < DIRECT_LIMIT
    requires BlockAt(d, blocks, index) == SENTINEL
    requires s != SENTINEL && s < |bits| && !bits[s] && bits1 == bits[s := true]
    ensures Staged(d, blocks, bits, isector, index, d.(direct := d.direct[index := s]), blocks, bits1, s)
    ensures Adds(bits, bits1, Pointers(d, blocks), Pointers(d.(direct := d.direct[index := s]), blocks))
  {
    var p0 := Pointers(d, blocks);
    assert p0[DataPos(index)] == SENTINEL;
    SetDirect(d, blocks, index, s);
    OwnedStep(p0, bits, isector, DataPos(index), s);
    DataKeptOne(p0, index, s);
    UntouchedBut(blocks, blocks, bits, isector, IndexPtrs(d, blocks), s, s);
    GrewOne(bits, s);
    assert Needed(d, blocks, index) == 1;
    AddsOne(bits, p0, DataPos(index), s);
    Settle(d, blocks, bits, isector, index, d.(direct := d.direct[index := s]), blocks, bits1, s);
  }

  /** extend_inode in the single-indirect range when the single-indirect
      sector exists: linking the free data sector s stages the block. */
  lemma SingleStaged(d: DiskInode, blocks: seq<seq<byte>>, bits: seq<bool>, isector: nat, index: nat, s: u32,
                     blocks1: seq<seq<byte>>, bits1: seq<bool>)
    requires Tree(d, blocks, bits, isector) && DIRECT_LIMIT <= index < SINGLE_INDIRECT_LIMIT
    requires BlockAt(d, blocks, index) == SENTINEL && d.single != SENTINEL
    requires s != SENTINEL && s < |bits| && !bits[s]
    requires blocks1 == blocks[d.single := SetWord(blocks[d.single], index - DIRECT_LIMIT, s)] && bits1 == bits[s := true]
    ensures Staged(d, blocks, bits, isector, index, d, blocks1, bits1, s)
    ensures Adds(bits, bits1, Pointers(d, blocks), Pointers(d, blocks1))
  {
    var p0 := Pointers(d, blocks);
    assert p0[0] == d.single && p0[DataPos(index)] == SENTINEL;
    LinkSingle(d, blocks, bits, isector, index - DIRECT_LIMIT, s);
    DataKeptOne(p0, index, s);
    assert IndexPtrs(d, blocks)[0] == d.single;
    UntouchedBut(blocks, blocks1, bits, isector, IndexPtrs(d, blocks), d.single, d.single);
    GrewOne(bits, s);
    assert Needed(d, blocks, index) == 1;
    AddsOne(bits, p0, DataPos(index), s);
    Settle(d, blocks, bits, isector, index, d, blocks1, bits1, s);
  }

  /** extend_inode in the single-indirect range when there is no
      single-indirect sector: the free sector t becomes one, every slot
      the sentinel, and linking the free data sector s stages the block. */
  lemma SingleStagedFresh(d: DiskInode, blocks: seq<seq<byte>>, bits: seq<bool>, isector: nat, index: nat,
                          t: u32, s: u32, blocks1: seq<seq<byte>>, bits1: seq<bool>)
    requires Tree(d, blocks, bits, isector) && DIRECT_LIMIT <= index < SINGLE_INDIRECT_LIMIT
    requires BlockAt(d, blocks, index) == SENTINEL && d.single == SENTINEL
    requires t != SENTINEL && t < |bits| && !bits[t]
    requires s != SENTINEL && s < |bits| && !bits[s] && s != t
    requires blocks1 == blocks[t := SetWord(Fill(), index - DIRECT_LIMIT, s)] && bits1 == bits[t := true][s := true]
    ensures Staged(d, blocks, bits, isector, index, d.(single := t), blocks1, bits1, s)
    ensures Adds(bits, bits1, Pointers(d, blocks), Pointers(d.(single := t), blocks1))
  {
    var p0 := Pointers(d, blocks);
    assert p0[DataPos(index)] == SENTINEL;
    ChainSingle(d, blocks, bits, isector, index - DIRECT_LIMIT, t, s, blocks1);
    DataKept(p0, 0, t, index, s);
    UntouchedBut(blocks, blocks1, bits, isector, IndexPtrs(d, blocks), t, t);
    GrewTwo(bits, t, s);
    assert Needed(d, blocks, index) == 2;
    AddsTwo(bits, p0, 0, t, DataPos(index), s);
    Settle(d, blocks, bits, isector, index, d.(single := t), blocks1, bits1, s);
  }

  /** The two steps for a single-indirect block with no single-indirect
      sector, on the pointers alone. */
  lemma ChainSingle(d: DiskInode, blocks: seq<seq<byte>>, bits: seq<bool>, isector: nat, i: nat,
                    t: u32, s: u32, blocks1: seq<seq<byte>>)
    requires Readable(d, blocks) && Owned(Pointers(d, blocks), bits, isector) && isector < |bits| && bits[isector]
    requires d.single == SENTINEL && i < SECTOR_CAPACITY && |bits| == |blocks|
    requires Pointers(d, blocks)[DataPos(DIRECT_LIMIT + i)] == SENTINEL
    requires t != SENTINEL && t < |bits| && !bits[t]
    requires s != SENTINEL && s < |bits| && !bits[s] && s != t
    requires blocks1 == blocks[t := SetWord(Fill(), i, s)]
    ensures Readable(d.(single := t), blocks1)
    ensures Owned(Pointers(d.(single := t), blocks1), bits[t := true][s := true], isector)
    ensures Pointers(d.(single := t), blocks1) == Pointers(d, blocks)[0 := t][DataPos(DIRECT_LIMIT + i) := s]
  {
    var p0 := Pointers(d, blocks);
    assert p0[0] == SENTINEL;
    FreeNotOwned(p0, bits, isector, t);
    forall a | 0 <= a < |IndexPtrs(d, blocks)| ensures IndexPtrs(d, blocks)[a] != t {
      assert p0[a] == IndexPtrs(d, blocks)[a];
    }
    var dA, bA := d.(single := t), blocks[t := Fill()];
    NewSingle(d, blocks, t);
    OwnedStep(p0, bits, isector, 0, t);
    LinkSingle(dA, bA, bits[t := true], isector, i, s);
    assert bA[t := SetWord(bA[t], i, s)] == blocks1;
  }

  /** Writing back a slot's own value leaves the index sector as it was. */
  lemma SetWordSame(b: seq<byte>, k: nat)
    requires |b| == BLOCK_SECTOR_SIZE && k < SECTOR_CAPACITY
    ensures SetWord(b, k, Word(b, k)) == b
  {
    var b0, b1, b2, b3 := b[4 * k], b[4 * k + 1], b[4 * k + 2], b[4 * k + 3];
    Split(b0, b1, b2, b3, 0);
    Split(b0, b1, b2, b3, 1);
    Split(b0, b1, b2, b3, 2);
    Split(b0, b1, b2, b3, 3);
    assert SetWord(b, k, Word(b, k)) == b[4 * k := b0][4 * k + 1 := b1][4 * k + 2 := b2][4 * k + 3 := b3];
  }

  /** A free sector t as the new double-indirect sector, every slot the
      sentinel, keeps the pointers owned. */
  lemma AddDouble(d: DiskInode, blocks: seq<seq<byte>>, bits: seq<bool>, isector: nat, t: u32)
    requires Readable(d, blocks) && Owned(Pointers(d, blocks), bits, isector) && isector < |bits| && bits[isector]
    requires d.double == SENTINEL && t != SENTINEL && t < |bits| == |blocks| && !bits[t]
    ensures Readable(d.(double := t), blocks[t := Fill()])
    ensures Pointers(d.(double := t), blocks[t := Fill()]) == Pointers(d, blocks)[1 := t]
    ensures Owned(Pointers(d.(double := t), blocks[t := Fill()]), bits[t := true], isector)
  {
    var p0 := Pointers(d, blocks);
    assert p0[1] == SENTINEL;
    FreeNotOwned(p0, bits, isector, t);
    forall a | 0 <= a < |IndexPtrs(d, blocks)| ensures IndexPtrs(d, blocks)[a] != t {
      assert p0[a] == IndexPtrs(d, blocks)[a];
    }
    NewDouble(d, blocks, t);
    OwnedStep(p0, bits, isector, 1, t);
  }

  /** A free sector u linked at outer slot o as a new second-level
      sector, every slot the sentinel, keeps the pointers owned. */
  lemma AddSecond(d: DiskInode, blocks: seq<seq<byte>>, bits: seq<bool>, isector: nat, o: nat, u: u32)
    requires Readable(d, blocks) && Owned(Pointers(d, blocks), bits, isector) && isector < |bits| && bits[isector]
    requires d.double != SENTINEL && o < SECTOR_CAPACITY && Second(d, blocks, o) == SENTINEL
    requires u != SENTINEL && u < |bits| == |blocks| && !bits[u]
    ensures Readable(d, blocks[d.double := SetWord(blocks[d.double], o, u)][u := Fill()])
    ensures Pointers(d, blocks[d.double := SetWord(blocks[d.double], o, u)][u := Fill()]) == Pointers(d, blocks)[2 + o := u]
    ensures Owned(Pointers(d, blocks[d.double := SetWord(blocks[d.double], o, u)][u := Fill()]), bits[u := true], isector)
    ensures Second(d, blocks[d.double := SetWord(blocks[d.double], o, u)][u := Fill()], o) == u
    ensures u != d.double
  {
    var p0 := Pointers(d, blocks);
    assert p0[2 + o] == SENTINEL;
    FreeNotOwned(p0, bits, isector, u);
    forall a | 0 <= a < |IndexPtrs(d, blocks)| ensures IndexPtrs(d, blocks)[a] != u {
      assert p0[a] == IndexPtrs(d, blocks)[a];
    }
    UniqueIndex(d, blocks);
    NewSecond(d, blocks, o, u);
    SecondAfterLink(d, blocks, blocks[d.double := SetWord(blocks[d.double], o, u)][u := Fill()], o, u);
    OwnedStep(p0, bits, isector, 2 + o, u);
  }

  /** Linking free sector s at inner slot i of the second-level sector at
      outer slot o fills that block and keeps the pointers owned. */
  lemma LinkDouble(d: DiskInode, blocks: seq<seq<byte>>, bits: seq<bool>, isector: nat, o: nat, i: nat, s: u32)
    requires Readable(d, blocks) && Owned(Pointers(d, blocks), bits, isector) && isector < |bits| && bits[isector]
    requires o < SECTOR_CAPACITY && i < SECTOR_CAPACITY && Second(d, blocks, o) != SENTINEL
    requires Pointers(d, blocks)[DataPos(SINGLE_INDIRECT_LIMIT + o * SECTOR_CAPACITY + i)] == SENTINEL
    requires s != SENTINEL && s < |bits| && !bits[s]
    ensures var l := Second(d, blocks, o);
            var b1 := blocks[l := SetWord(blocks[l], i, s)];
            && Readable(d, b1)
            && Pointers(d, b1) == Pointers(d, blocks)[DataPos(SINGLE_INDIRECT_LIMIT + o * SECTOR_CAPACITY + i) := s]
            && Owned(Pointers(d, b1), bits[s := true], isector)
  {
    UniqueIndex(d, blocks);
    SetDouble(d, blocks, o, i, s);
    OwnedStep(Pointers(d, blocks), bits, isector, DataPos(SINGLE_INDIRECT_LIMIT + o * SECTOR_CAPACITY + i), s);
  }

  /** Two writes to different sectors, the second of which overwrites an
      earlier write, commute. */
  lemma Reorder(blocks: seq<seq<byte>>, x: nat, bx: seq<byte>, y: nat, by0: seq<byte>, by1: seq<byte>)
    requires x < |blocks| && y < |blocks| && x != y
    ensures blocks[x := bx][y := by0][y := by1] == blocks[y := by1][x := bx]
  {
  }

  /** Replacing index entry k and block index's entry of a pointer
      sequence keeps every other block's entry. */
  lemma DataKept(p0: seq<u32>, k: nat, x: u32, index: nat, s: u32)
    requires |p0| == 2 + SECTOR_CAPACITY + INODE_MAX_SECTOR && k < 2 + SECTOR_CAPACITY && index < INODE_MAX_SECTOR
    ensures DataMoved(p0, p0[k := x][DataPos(index) := s], index, s)
  {
  }

  /** Two index entries and block index's entry replaced: every other
      block keeps its entry. */
  lemma DataKeptTwo(p0: seq<u32>, k1: nat, x1: u32, k2: nat, x2: u32, index: nat, s: u32)
    requires |p0| == 2 + SECTOR_CAPACITY + INODE_MAX_SECTOR && k1 < 2 + SECTOR_CAPACITY && k2 < 2 + SECTOR_CAPACITY
    requires index < INODE_MAX_SECTOR
    ensures DataMoved(p0, p0[k1 := x1][k2 := x2][DataPos(index) := s], index, s)
  {
  }

  /** Block index's data entry becomes sector and every other block's
      data entry of p0 stays in p1. */
  ghost predicate DataMoved(p0: seq<u32>, p1: seq<u32>, index: nat, sector: u32)
  {
    |p0| == |p1| == 2 + SECTOR_CAPACITY + INODE_MAX_SECTOR && index < INODE_MAX_SECTOR
    && p1[DataPos(index)] == sector
    && forall j :: 0 <= j < INODE_MAX_SECTOR && j != index ==> p1[DataPos(j)] == p0[DataPos(j)]
  }

  /** Every sector in use that is neither the record's nor one of the
      index sectors q keeps its contents. */
  ghost predicate Untouched(blocks: seq<seq<byte>>, blocks1: seq<seq<byte>>, bits: seq<bool>, isector: nat, q: seq<u32>)
  {
    |blocks1| == |blocks| && |bits| == |blocks|
    && forall x :: 0 <= x < |blocks| && bits[x] && x != isector && x !in q ==> blocks1[x] == blocks[x]
  }

  /** A write to at most the sectors y and z, each free or an index
      sector, touches nothing else in use. */
  lemma UntouchedBut(blocks: seq<seq<byte>>, blocks1: seq<seq<byte>>, bits: seq<bool>, isector: nat, q: seq<u32>,
                     y: nat, z: nat)
    requires |blocks1| == |blocks| && |bits| == |blocks| && y < |blocks| && z < |blocks|
    requires !bits[y] || y in q
    requires !bits[z] || z in q
    requires forall x :: 0 <= x < |blocks| && x != y && x != z ==> blocks1[x] == blocks[x]
    ensures Untouched(blocks, blocks1, bits, isector, q)
  {
  }

  /** Replacing block index's entry of a pointer sequence keeps every
      other block's entry. */
  lemma DataKeptOne(p0: seq<u32>, index: nat, s: u32)
    requires |p0| == 2 + SECTOR_CAPACITY + INODE_MAX_SECTOR && index < INODE_MAX_SECTOR
    ensures DataMoved(p0, p0[DataPos(index) := s], index, s)
  {
  }

  /** The free map after allocation: every sector in use stays in use,
      and n more are. */
  ghost predicate Grew(bits: seq<bool>, bits1: seq<bool>, n: nat)
  {
    |bits1| == |bits|
    && (forall x :: 0 <= x < |bits| && bits[x] ==> bits1[x])
    && Count(bits1) == Count(bits) + n
  }

  /** Marking one free sector in use. */
  lemma GrewOne(bits: seq<bool>, s: nat)
    requires s < |bits| && !bits[s]
    ensures Grew(bits, bits[s := true], 1)
  {
    CountSet(bits, s, true);
  }

  /** Marking two different free sectors in use. */
  lemma GrewTwo(bits: seq<bool>, t: nat, s: nat)
    requires t < |bits| && !bits[t] && s < |bits| && !bits[s] && s != t
    ensures Grew(bits, bits[t := true][s := true], 2)
  {
    CountSet(bits, t, true);
    CountSet(bits[t := true], s, true);
  }

  /** Marking three different free sectors in use. */
  lemma GrewThree(bits: seq<bool>, t: nat, u: nat, s: nat)
    requires t < |bits| && !bits[t] && u < |bits| && !bits[u] && s < |bits| && !bits[s]
    requires u != t && s != t && s != u
    ensures Grew(bits, bits[t := true][u := true][s := true], 3)
  {
    CountSet(bits, t, true);
    CountSet(bits[t := true], u, true);
    CountSet(bits[t := true][u := true], s, true);
  }

  /** An index sector is one of the pointers. */
  lemma IndexAmongPointers(d: DiskInode, blocks: seq<seq<byte>>)
    requires Readable(d, blocks)
    ensures forall x :: x in IndexPtrs(d, blocks) ==> x in Pointers(d, blocks)
  {
    var q := IndexPtrs(d, blocks);
    forall x | x in q ensures x in Pointers(d, blocks) {
      var a :| 0 <= a < |q| && q[a] == x;
      assert Pointers(d, blocks)[a] == x;
    }
  }

  /** Every allocated entry of p is in use. */
  ghost predicate Covered(p: seq<u32>, bits: seq<bool>)
  {
    forall a :: 0 <= a < |p| && p[a] != SENTINEL ==> p[a] < |bits| && bits[p[a]]
  }

  /** The free map after the pointers p0 became p1 by filling empty
      entries with sectors that were free: exactly those sectors are newly
      in use. */
  ghost predicate Adds(bits: seq<bool>, bits1: seq<bool>, p0: seq<u32>, p1: seq<u32>)
  {
    |bits1| == |bits| && |p1| == |p0|
    && (forall a :: 0 <= a < |p1| && p1[a] != p0[a] ==> p0[a] == SENTINEL && p1[a] < |bits| && !bits[p1[a]])
    && (forall x :: 0 <= x < |bits| ==> bits1[x] == (bits[x] || (x != SENTINEL && x in p1)))
  }

  /** Pointers that do not change take no sector. */
  lemma AddsNone(bits: seq<bool>, p: seq<u32>)
    requires Covered(p, bits)
    ensures Adds(bits, bits, p, p)
  {
  }

  /** Filling the empty entry k with the free sector v takes exactly v. */
  lemma AddsOne(bits: seq<bool>, p: seq<u32>, k: nat, v: u32)
    requires Covered(p, bits) && k < |p| && p[k] == SENTINEL
    requires v != SENTINEL && v < |bits| && !bits[v]
    ensures Adds(bits, bits[v := true], p, p[k := v]) && Covered(p[k := v], bits[v := true])
  {
    var p1 := p[k := v];
    forall x | 0 <= x < |bits| ensures bits[v := true][x] == (bits[x] || (x != SENTINEL && x in p1)) {
      if x != SENTINEL && x in p1 {
        var a :| 0 <= a < |p1| && p1[a] == x;
        if a != k {
          assert p[a] == x;
        }
      }
      if x == v {
        assert p1[k] == x;
      }
    }
  }

  /** Two fillings in a row are one. */
  lemma AddsTrans(bits: seq<bool>, bits1: seq<bool>, bits2: seq<bool>, p0: seq<u32>, p1: seq<u32>, p2: seq<u32>)
    requires Adds(bits, bits1, p0, p1) && Adds(bits1, bits2, p1, p2)
    ensures Adds(bits, bits2, p0, p2)
  {
    forall x | 0 <= x < |bits| && x != SENTINEL && x in p1 ensures x in p2 {
      var a :| 0 <= a < |p1| && p1[a] == x;
      assert p2[a] == x;
    }
  }

  /** Filling two empty entries with two free sectors takes exactly those. */
  lemma AddsTwo(bits: seq<bool>, p: seq<u32>, k1: nat, v1: u32, k2: nat, v2: u32)
    requires Covered(p, bits) && k1 < |p| && k2 < |p| && k1 != k2 && p[k1] == SENTINEL && p[k2] == SENTINEL
    requires v1 != SENTINEL && v1 < |bits| && !bits[v1]
    requires v2 != SENTINEL && v2 < |bits| && !bits[v2] && v2 != v1
    ensures Adds(bits, bits[v1 := true][v2 := true], p, p[k1 := v1][k2 := v2])
    ensures Covered(p[k1 := v1][k2 := v2], bits[v1 := true][v2 := true])
  {
    AddsOne(bits, p, k1, v1);
    AddsOne(bits[v1 := true], p[k1 := v1], k2, v2);
    AddsTrans(bits, bits[v1 := true], bits[v1 := true][v2 := true], p, p[k1 := v1], p[k1 := v1][k2 := v2]);
  }

  /** The three fillings of a double-indirect block with neither index
      sector present. */
  lemma DoubleAdds(bits: seq<bool>, p: seq<u32>, o: nat, t: u32, u: u32, k: nat, s: u32)
    requires Covered(p, bits) && |p| == 2 + SECTOR_CAPACITY + INODE_MAX_SECTOR && o < SECTOR_CAPACITY
    requires DataPos(0) <= k < |p| && p[1] == SENTINEL && p[2 + o] == SENTINEL && p[k] == SENTINEL
    requires t != SENTINEL && t < |bits| && !bits[t]
    requires u != SENTINEL && u < |bits| && !bits[u] && u != t
    requires s != SENTINEL && s < |bits| && !bits[s] && s != t && s != u
    ensures Adds(bits, bits[t := true][u := true][s := true], p, p[1 := t][2 + o := u][k := s])
  {
    AddsOne(bits, p, 1, t);
    AddsTwo(bits[t := true], p[1 := t], 2 + o, u, k, s);
    AddsTrans(bits, bits[t := true], bits[t := true][u := true][s := true], p, p[1 := t], p[1 := t][2 + o := u][k := s]);
  }

  /** A write that a later write to the same sector overwrites is lost. */
  lemma Overwrite(blocks: seq<seq<byte>>, x: nat, bx0: seq<byte>, y: nat, data: seq<byte>, bx1: seq<byte>)
    requires x < |blocks| && y < |blocks| && x != y
    ensures blocks[x := bx0][y := data][x := bx1] == blocks[y := data][x := bx1]
  {
  }

  /** Packages a staged extension: the new pointers are the old ones with
      some index entries and block index's entry replaced. */
  lemma Settle(d: DiskInode, blocks: seq<seq<byte>>, bits: seq<bool>, isector: nat, index: nat,
               d2: DiskInode, blocks1: seq<seq<byte>>, bits1: seq<bool>, sector: u32)
    requires Tree(d, blocks, bits, isector) && index < INODE_MAX_SECTOR
    requires Readable(d2, blocks1) && |blocks1| == |blocks| && |bits1| == |bits|
    requires Owned(Pointers(d2, blocks1), bits1, isector)
    requires d2.length == d.length && d2.parent == d.parent && d2.magic == d.magic
    requires sector != SENTINEL && sector < |bits| && !bits[sector]
    requires DataMoved(Pointers(d, blocks), Pointers(d2, blocks1), index, sector)
    requires Untouched(blocks, blocks1, bits, isector, IndexPtrs(d, blocks))
    requires Grew(bits, bits1, Needed(d, blocks, index))
    ensures Staged(d, blocks, bits, isector, index, d2, blocks1, bits1, sector)
  {
  }

  /** The three steps for a double-indirect block with neither index
      sector present, on the pointers alone. */
  lemma ChainNew(d: DiskInode, blocks: seq<seq<byte>>, bits: seq<bool>, isector: nat, o: nat, i: nat,
                 t: u32, u: u32, s: u32, blocks1: seq<seq<byte>>)
    requires Readable(d, blocks) && Owned(Pointers(d, blocks), bits, isector) && isector < |bits| && bits[isector]
    requires d.double == SENTINEL && o < SECTOR_CAPACITY && i < SECTOR_CAPACITY && |bits| == |blocks|
    requires Pointers(d, blocks)[DataPos(SINGLE_INDIRECT_LIMIT + o * SECTOR_CAPACITY + i)] == SENTINEL
    requires t != SENTINEL && t < |bits| && !bits[t]
    requires u != SENTINEL && u < |bits| && !bits[u] && u != t
    requires s != SENTINEL && s < |bits| && !bits[s] && s != t && s != u
    requires blocks1 == blocks[u := SetWord(Fill(), i, s)][t := SetWord(Fill(), o, u)]
    ensures Readable(d.(double := t), blocks1)
    ensures Owned(Pointers(d.(double := t), blocks1), bits[t := true][u := true][s := true], isector)
    ensures Pointers(d.(double := t), blocks1)
            == Pointers(d, blocks)[1 := t][2 + o := u][DataPos(SINGLE_INDIRECT_LIMIT + o * SECTOR_CAPACITY + i) := s]
  {
    var dA, bA := d.(double := t), blocks[t := Fill()];
    AddDouble(d, blocks, bits, isector, t);
    assert Second(dA, bA, o) == SENTINEL;
    Overwrite(blocks, t, Fill(), u, SetWord(Fill(), i, s), SetWord(Fill(), o, u));
    ChainSecond(dA, bA, bits[t := true], isector, o, i, u, s, blocks1);
  }

  /** The two steps for a double-indirect block whose outer slot o is
      empty, on the pointers alone. */
  lemma ChainSecond(d: DiskInode, blocks: seq<seq<byte>>, bits: seq<bool>, isector: nat, o: nat, i: nat,
                    u: u32, s: u32, blocks1: seq<seq<byte>>)
    requires Readable(d, blocks) && Owned(Pointers(d, blocks), bits, isector) && isector < |bits| && bits[isector]
    requires d.double != SENTINEL && o < SECTOR_CAPACITY && i < SECTOR_CAPACITY && |bits| == |blocks|
    requires Second(d, blocks, o) == SENTINEL
    requires Pointers(d, blocks)[DataPos(SINGLE_INDIRECT_LIMIT + o * SECTOR_CAPACITY + i)] == SENTINEL
    requires u != SENTINEL && u < |bits| && !bits[u]
    requires s != SENTINEL && s < |bits| && !bits[s] && s != u
    requires blocks1 == blocks[u := SetWord(Fill(), i, s)][d.double := SetWord(blocks[d.double], o, u)]
    ensures Readable(d, blocks1)
    ensures Owned(Pointers(d, blocks1), bits[u := true][s := true], isector)
    ensures Pointers(d, blocks1)
            == Pointers(d, blocks)[2 + o := u][DataPos(SINGLE_INDIRECT_LIMIT + o * SECTOR_CAPACITY + i) := s]
  {
    var bB := blocks[d.double := SetWord(blocks[d.double], o, u)][u := Fill()];
    AddSecond(d, blocks, bits, isector, o, u);
    LinkDouble(d, bB, bits[u := true], isector, o, i, s);
    Reorder(blocks, d.double, SetWord(blocks[d.double], o, u), u, Fill(), SetWord(Fill(), i, s));
  }

  /** extend_inode in the double-indirect range with neither index sector
      present: free t becomes the double-indirect sector, free u the
      second-level sector at outer slot o, and free s the data sector. */
  lemma DoubleStagedNew(d: DiskInode, blocks: seq<seq<byte>>, bits: seq<bool>, isector: nat, index: nat,
                        o: nat, i: nat, t: u32, u: u32, s: u32, blocks1: seq<seq<byte>>, bits1: seq<bool>)
    requires Tree(d, blocks, bits, isector) && o < SECTOR_CAPACITY && i < SECTOR_CAPACITY
    requires index == SINGLE_INDIRECT_LIMIT + o * SECTOR_CAPACITY + i
    requires BlockAt(d, blocks, index) == SENTINEL && d.double == SENTINEL
    requires t != SENTINEL && t < |bits| && !bits[t]
    requires u != SENTINEL && u < |bits| && !bits[u] && u != t
    requires s != SENTINEL && s < |bits| && !bits[s] && s != t && s != u
    requires blocks1 == blocks[u := SetWord(Fill(), i, s)][t := SetWord(Fill(), o, u)]
    requires bits1 == bits[t := true][u := true][s := true]
    ensures Staged(d, blocks, bits, isector, index, d.(double := t), blocks1, bits1, s)
    ensures Adds(bits, bits1, Pointers(d, blocks), Pointers(d.(double := t), blocks1))
  {
    SlotOfIndex(Double(o, i));
    assert Pointers(d, blocks)[DataPos(index)] == SENTINEL;
    ChainNew(d, blocks, bits, isector, o, i, t, u, s, blocks1);
    assert Adds(bits, bits1, Pointers(d, blocks), Pointers(d.(double := t), blocks1)) by {
      DoubleAdds(bits, Pointers(d, blocks), o, t, u, DataPos(index), s);
    }
    DataKeptTwo(Pointers(d, blocks), 1, t, 2 + o, u, index, s);
    UntouchedBut(blocks, blocks1, bits, isector, IndexPtrs(d, blocks), t, u);
    assert Needed(d, blocks, index) == 3;
    GrewThree(bits, t, u, s);
    Settle(d, blocks, bits, isector, index, d.(double := t), blocks1, bits1, s);
  }

  /** extend_inode in the double-indirect range when the double-indirect
      sector exists but outer slot o is empty: free u becomes the
      second-level sector there, and free s the data sector. */
  lemma DoubleStagedSecond(d: DiskInode, blocks: seq<seq<byte>>, bits: seq<bool>, isector: nat, index: nat,
                           o: nat, i: nat, u: u32, s: u32, blocks1: seq<seq<byte>>, bits1: seq<bool>)
    requires Tree(d, blocks, bits, isector) && o < SECTOR_CAPACITY && i < SECTOR_CAPACITY
    requires index == SINGLE_INDIRECT_LIMIT + o * SECTOR_CAPACITY + i
    requires BlockAt(d, blocks, index) == SENTINEL && d.double != SENTINEL
    requires Second(d, blocks, o) == SENTINEL
    requires u != SENTINEL && u < |bits| && !bits[u]
    requires s != SENTINEL && s < |bits| && !bits[s] && s != u
    requires blocks1 == blocks[u := SetWord(Fill(), i, s)][d.double := SetWord(blocks[d.double], o, u)]
    requires bits1 == bits[u := true][s := true]
    ensures Staged(d, blocks, bits, isector, index, d, blocks1, bits1, s)
    ensures Adds(bits, bits1, Pointers(d, blocks), Pointers(d, blocks1))
  {
    SlotOfIndex(Double(o, i));
    var q := IndexPtrs(d, blocks);
    assert Pointers(d, blocks)[DataPos(index)] == SENTINEL && q[1] == d.double;
    ChainSecond(d, blocks, bits, isector, o, i, u, s, blocks1);
    DataKept(Pointers(d, blocks), 2 + o, u, index, s);
    UntouchedBut(blocks, blocks1, bits, isector, q, u, d.double);
    GrewTwo(bits, u, s);
    assert Needed(d, blocks, index) == 2;
    AddsTwo(bits, Pointers(d, blocks), 2 + o, u, DataPos(index), s);
    Settle(d, blocks, bits, isector, index, d, blocks1, bits1, s);
  }

  /** extend_inode in the double-indirect range when both index sectors
      exist: free s is linked at inner slot i of the second-level sector
      l, and the unchanged double-indirect sector is written back. */
  lemma DoubleStagedLinked(d: DiskInode, blocks: seq<seq<byte>>, bits: seq<bool>, isector: nat, index: nat,
                           o: nat, i: nat, s: u32, blocks1: seq<seq<byte>>, bits1: seq<bool>)
    requires Tree(d, blocks, bits, isector) && o < SECTOR_CAPACITY && i < SECTOR_CAPACITY
    requires index == SINGLE_INDIRECT_LIMIT + o * SECTOR_CAPACITY + i
    requires BlockAt(d, blocks, index) == SENTINEL
    requires Second(d, blocks, o) != SENTINEL
    requires s != SENTINEL && s < |bits| && !bits[s]
    requires var l := Second(d, blocks, o);
             blocks1 == blocks[l := SetWord(blocks[l], i, s)][d.double := SetWord(blocks[d.double], o, l)]
    requires bits1 == bits[s := true]
    ensures Staged(d, blocks, bits, isector, index, d, blocks1, bits1, s)
    ensures Adds(bits, bits1, Pointers(d, blocks), Pointers(d, blocks1))
  {
    SlotOfIndex(Double(o, i));
    var p0 := Pointers(d, blocks);
    var l := Second(d, blocks, o);
    assert p0[DataPos(index)] == SENTINEL && p0[1] == d.double && p0[2 + o] == l;
    ChainLinked(d, blocks, bits, isector, o, i, s, blocks1);
    DataKeptOne(p0, index, s);
    var q := IndexPtrs(d, blocks);
    assert q[2 + o] == l && d.double != SENTINEL;
    UntouchedBut(blocks, blocks1, bits, isector, q, l, l);
    GrewOne(bits, s);
    assert Needed(d, blocks, index) == 1;
    AddsOne(bits, p0, DataPos(index), s);
    Settle(d, blocks, bits, isector, index, d, blocks1, bits1, s);
  }

  /** Linking free sector s below an existing second-level sector l, then
      writing back the double-indirect sector unchanged, on the pointers
      alone. */
  lemma ChainLinked(d: DiskInode, blocks: seq<seq<byte>>, bits: seq<bool>, isector: nat, o: nat, i: nat,
                    s: u32, blocks1: seq<seq<byte>>)
    requires Readable(d, blocks) && Owned(Pointers(d, blocks), bits, isector) && isector < |bits| && bits[isector]
    requires o < SECTOR_CAPACITY && i < SECTOR_CAPACITY && |bits| == |blocks| && Second(d, blocks, o) != SENTINEL
    requires Pointers(d, blocks)[DataPos(SINGLE_INDIRECT_LIMIT + o * SECTOR_CAPACITY + i)] == SENTINEL
    requires s != SENTINEL && s < |bits| && !bits[s]
    requires var l := Second(d, blocks, o);
             blocks1 == blocks[l := SetWord(blocks[l], i, s)][d.double := SetWord(blocks[d.double], o, l)]
    ensures Readable(d, blocks1)
    ensures Owned(Pointers(d, blocks1), bits[s := true], isector)
    ensures Pointers(d, blocks1) == Pointers(d, blocks)[DataPos(SINGLE_INDIRECT_LIMIT + o * SECTOR_CAPACITY + i) := s]
    ensures forall x :: 0 <= x < |blocks| && x != Second(d, blocks, o) ==> blocks1[x] == blocks[x]
  {
    var l := Second(d, blocks, o);
    var q := IndexPtrs(d, blocks);
    assert q[1] == d.double && q[2 + o] == l;
    SetWordSame(blocks[d.double], o);
    UniqueIndex(d, blocks);
    Distinct(q, 1, 2 + o);
    LinkDouble(d, blocks, bits, isector, o, i, s);
    assert blocks[l := SetWord(blocks[l], i, s)] == blocks1;
  }
}
