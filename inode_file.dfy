/** What an inode holds as a file, over the on-disk index of InodeDisk:
    the record inode_create starts from, the bytes a file reads as, and
    how writing a record, a length or a chunk of data changes them. */
module InodeFile {
  import opened Bytes
  import opened Block
  import opened Bitmap
  import opened InodeDisk

  /** The record inode_create fills in before extending: the length,
      parent and magic, and the sentinel in every pointer. */
  function NewRecord(length: u32, parent: u32): (d: DiskInode)
    ensures WellFormed(d) && d.length == length && d.parent == parent && d.magic == INODE_MAGIC
    ensures d.single == SENTINEL && d.double == SENTINEL
    ensures forall i :: 0 <= i < DIRECT_LIMIT ==> d.direct[i] == SENTINEL
  {
    DiskInode(length, parent, seq(DIRECT_LIMIT, _ => SENTINEL), SENTINEL, SENTINEL, INODE_MAGIC)
  }

  /** Every byte of the file reads as zero. */
  ghost predicate AllZero(d: DiskInode, blocks: seq<seq<byte>>)
  {
    Mapped(d, blocks) && forall pos :: 0 <= pos < MAX_LENGTH ==> Content(d, blocks, pos) == 0
  }

  /** A new record maps no block: it is a tree whatever the device holds,
      no block lies past its length, and it reads as zeros. */
  lemma NewRecordTree(length: u32, parent: u32, blocks: seq<seq<byte>>, bits: seq<bool>, isector: nat)
    requires Sized(blocks) && |bits| == |blocks| && isector < |bits| && bits[isector] && isector != SENTINEL
    requires length as nat <= MAX_LENGTH
    ensures Tree(NewRecord(length, parent), blocks, bits, isector)
    ensures Trimmed(NewRecord(length, parent), blocks, 0)
    ensures AllZero(NewRecord(length, parent), blocks)
    ensures Empty(Pointers(NewRecord(length, parent), blocks))
  {
    var d := NewRecord(length, parent);
    assert Readable(d, blocks);
    forall j | 0 <= j < INODE_MAX_SECTOR ensures BlockAt(d, blocks, j) == SENTINEL {
    }
    var p := Pointers(d, blocks);
    forall a | 0 <= a < |p| ensures p[a] == SENTINEL {
      if a >= 2 + SECTOR_CAPACITY {
        assert p[a] == BlockAt(d, blocks, a - 2 - SECTOR_CAPACITY);
      } else if a >= 2 {
        assert p[a] == Second(d, blocks, a - 2);
      }
    }
    TreeMapped(d, blocks, bits, isector);
  }

  /** No pointer is allocated. */
  ghost predicate Empty(p: seq<u32>)
  {
    forall a :: 0 <= a < |p| ==> p[a] == SENTINEL
  }

  /** Pointers that started empty and were filled only with sectors free
      in bits0: the map is bits0 and those sectors, none of which was in
      use in bits0. */
  lemma FilledFresh(bits0: seq<bool>, bits: seq<bool>, e: seq<u32>, p: seq<u32>)
    requires Adds(bits0, bits, e, p) && Empty(e)
    ensures forall x :: 0 <= x < |bits0| && x != SENTINEL && x in p ==> !bits0[x]
    ensures forall x :: 0 <= x < |bits0| ==> bits[x] == (bits0[x] || (x != SENTINEL && x in p))
  {
    forall x | 0 <= x < |bits0| && x != SENTINEL && x in p ensures !bits0[x] {
      var a :| 0 <= a < |p| && p[a] == x;
    }
  }

  /** A length bound that no block passes also holds for any greater length. */
  lemma TrimmedMono(d: DiskInode, blocks: seq<seq<byte>>, a: nat, b: nat)
    requires Readable(d, blocks) && a <= b && Trimmed(d, blocks, a)
    ensures Trimmed(d, blocks, b)
  {
    assert SectorsOf(a) <= SectorsOf(b);
  }

  /** One step of inode_create's loop: extending the block of byte i, the
      first block past every allocated one, keeps the file zero and its
      blocks below i + BLOCK_SECTOR_SIZE. */
  lemma GrownStep(d: DiskInode, blocks: seq<seq<byte>>, bits: seq<bool>, isector: nat, i: nat,
                  d2: DiskInode, blocks2: seq<seq<byte>>, bits2: seq<bool>, sector: u32)
    requires Tree(d, blocks, bits, isector) && i < MAX_LENGTH && i % BLOCK_SECTOR_SIZE == 0
    requires Trimmed(d, blocks, i) && AllZero(d, blocks)
    requires Grown(d, blocks, bits, isector, i / BLOCK_SECTOR_SIZE, d2, blocks2, bits2, sector)
    ensures Trimmed(d2, blocks2, i + BLOCK_SECTOR_SIZE) && AllZero(d2, blocks2)
  {
    var index := i / BLOCK_SECTOR_SIZE;
    assert SectorsOf(i) == index;
    assert SectorsOf(i + BLOCK_SECTOR_SIZE) == index + 1;
    GrownContent(d, blocks, bits, isector, index, d2, blocks2, bits2, sector);
  }

  /** Block j starts below the length exactly when j is one of the
      blocks the length spans. */
  lemma BlockBelow(j: nat, length: nat)
    ensures j * BLOCK_SECTOR_SIZE < length <==> j < SectorsOf(length)
    ensures (j * BLOCK_SECTOR_SIZE) / BLOCK_SECTOR_SIZE == j
  {
  }

  /** inode_create's loop ends at the first multiple of the sector size
      that reaches the length. */
  lemma LoopEnd(i: nat, length: nat)
    requires i % BLOCK_SECTOR_SIZE == 0 && length <= i < length + BLOCK_SECTOR_SIZE
    ensures SectorsOf(i) == SectorsOf(length)
  {
  }

  /** Writing the record's own sector changes no block and no byte of the
      file, and keeps the tree. */
  lemma RecordWrite(d: DiskInode, blocks: seq<seq<byte>>, bits: seq<bool>, isector: nat, data: seq<byte>)
    requires Tree(d, blocks, bits, isector) && |data| == BLOCK_SECTOR_SIZE
    ensures Tree(d, blocks[isector := data], bits, isector)
    ensures Pointers(d, blocks[isector := data]) == Pointers(d, blocks)
    ensures forall j :: 0 <= j < INODE_MAX_SECTOR ==> BlockAt(d, blocks[isector := data], j) == BlockAt(d, blocks, j)
    ensures Mapped(d, blocks) && Mapped(d, blocks[isector := data])
    ensures forall pos :: 0 <= pos < MAX_LENGTH ==> Content(d, blocks[isector := data], pos) == Content(d, blocks, pos)
  {
    var p := Pointers(d, blocks);
    var q := IndexPtrs(d, blocks);
    forall a | 0 <= a < |q| ensures q[a] != isector {
      assert p[a] == q[a];
    }
    WriteOther(d, blocks, isector, data);
    var b2 := blocks[isector := data];
    forall j | 0 <= j < INODE_MAX_SECTOR ensures BlockAt(d, b2, j) == BlockAt(d, blocks, j) {
      PointerOfBlock(d, b2, j);
      PointerOfBlock(d, blocks, j);
    }
    TreeMapped(d, blocks, bits, isector);
    TreeMapped(d, b2, bits, isector);
    forall pos | 0 <= pos < MAX_LENGTH ensures Content(d, b2, pos) == Content(d, blocks, pos) {
      PointerOfBlock(d, blocks, pos / BLOCK_SECTOR_SIZE);
    }
  }

  /** Zero-filled and trimmed stay true when the record's sector is written. */
  lemma RecordWriteZero(d: DiskInode, blocks: seq<seq<byte>>, bits: seq<bool>, isector: nat, len: nat, data: seq<byte>)
    requires Tree(d, blocks, bits, isector) && |data| == BLOCK_SECTOR_SIZE
    requires Trimmed(d, blocks, len) && AllZero(d, blocks)
    ensures Tree(d, blocks[isector := data], bits, isector)
    ensures Trimmed(d, blocks[isector := data], len) && AllZero(d, blocks[isector := data])
    ensures Pointers(d, blocks[isector := data]) == Pointers(d, blocks)
    ensures BlockAt(d, blocks[isector := data], 0) == BlockAt(d, blocks, 0)
  {
    RecordWrite(d, blocks, bits, isector, data);
    var b2 := blocks[isector := data];
    forall j | SectorsOf(len) <= j < INODE_MAX_SECTOR ensures BlockAt(d, b2, j) == SENTINEL {
      assert BlockAt(d, blocks, j) == SENTINEL;
    }
    forall pos | 0 <= pos < MAX_LENGTH ensures Content(d, b2, pos) == 0 {
      assert Content(d, blocks, pos) == 0;
    }
  }

  /** inode_create's loop state after the steps below byte i: a zero
      tree with no block from i on. */
  ghost predicate Building(d: DiskInode, blocks: seq<seq<byte>>, bits: seq<bool>, isector: nat, i: nat)
  {
    Tree(d, blocks, bits, isector) && Trimmed(d, blocks, i) && AllZero(d, blocks)
  }

  /** inode_create's loop state against the free map bits0 and the
      device b0 it started from, with e the new record's empty pointers:
      the pointers gained exactly the sectors newly in use; nothing has
      changed before the first step; block 0 is allocated after it
      whenever a sector was free; and a sector in use at the start, other
      than the record's, keeps its contents. */
  ghost predicate Filled(bits0: seq<bool>, b0: seq<seq<byte>>, e: seq<u32>,
                         d: DiskInode, blocks: seq<seq<byte>>, bits: seq<bool>, isector: nat, i: nat)
    requires Readable(d, blocks)
  {
    |bits0| <= SENTINEL && Empty(e) && Adds(bits0, bits, e, Pointers(d, blocks))
    && (i == 0 ==> bits == bits0)
    && (i > 0 && Count(bits0) < |bits0| ==> BlockAt(d, blocks, 0) != SENTINEL)
    && |blocks| == |b0| == |bits0| && forall x :: 0 <= x < |b0| && bits0[x] && x != isector ==> blocks[x] == b0[x]
  }

  /** An extension in inode_create's loop keeps Filled. */
  lemma FilledGrown(bits0: seq<bool>, b0: seq<seq<byte>>, e: seq<u32>, d: DiskInode, blocks: seq<seq<byte>>,
                    bits: seq<bool>, isector: nat, i: nat, d2: DiskInode, blocks2: seq<seq<byte>>, bits2: seq<bool>,
                    sector: u32)
    requires Tree(d, blocks, bits, isector) && i < MAX_LENGTH && i % BLOCK_SECTOR_SIZE == 0
    requires Filled(bits0, b0, e, d, blocks, bits, isector, i)
    requires Grown(d, blocks, bits, isector, i / BLOCK_SECTOR_SIZE, d2, blocks2, bits2, sector)
    requires Adds(bits, bits2, Pointers(d, blocks), Pointers(d2, blocks2))
    ensures Filled(bits0, b0, e, d2, blocks2, bits2, isector, i + BLOCK_SECTOR_SIZE)
  {
    AddsTrans(bits0, bits, bits2, e, Pointers(d, blocks), Pointers(d2, blocks2));
    FilledFresh(bits0, bits, e, Pointers(d, blocks));
    IndexAmongPointers(d, blocks);
    if i > 0 {
      assert i / BLOCK_SECTOR_SIZE != 0;
    }
  }

  /** A failed extension in inode_create's loop keeps Filled: for the
      first block it fails only with every sector in use. */
  lemma FilledSame(bits0: seq<bool>, b0: seq<seq<byte>>, e: seq<u32>, d: DiskInode, blocks: seq<seq<byte>>,
                   bits: seq<bool>, isector: nat, i: nat)
    requires Tree(d, blocks, bits, isector) && i < MAX_LENGTH && i % BLOCK_SECTOR_SIZE == 0
    requires Filled(bits0, b0, e, d, blocks, bits, isector, i)
    requires |bits| - Count(bits) < Needed(d, blocks, i / BLOCK_SECTOR_SIZE)
    ensures Filled(bits0, b0, e, d, blocks, bits, isector, i + BLOCK_SECTOR_SIZE)
  {
    if i == 0 {
      assert SlotFor(0) == Direct(0);
    }
  }

  /** What Filled says once inode_create writes the record: the sectors
      newly in use are those the inode owns besides its record's, none of
      them was in use before, and every other sector in use keeps its
      contents. */
  lemma FilledOwns(bits0: seq<bool>, b0: seq<seq<byte>>, e: seq<u32>, d: DiskInode, blocks: seq<seq<byte>>,
                   bits: seq<bool>, isector: nat, i: nat, b2: seq<seq<byte>>)
    requires Tree(d, blocks, bits, isector) && Filled(bits0, b0, e, d, blocks, bits, isector, i)
    requires Readable(d, b2) && Pointers(d, b2) == Pointers(d, blocks)
    requires |b2| == |blocks| && forall x :: 0 <= x < |blocks| && x != isector ==> b2[x] == blocks[x]
    ensures forall x :: 0 <= x < |bits| ==> bits[x] == (bits0[x] || (x != isector && Owns(d, b2, isector, x)))
    ensures forall x :: 0 <= x < |bits| && x != isector && Owns(d, b2, isector, x) ==> !bits0[x]
    ensures forall x :: 0 <= x < |b0| && bits0[x] && x != isector ==> b2[x] == b0[x]
  {
    FilledFresh(bits0, bits, e, Pointers(d, blocks));
  }

  /** The bytes from off up to the end of off's sector lie in one block:
      they share off's sector and sit at consecutive offsets within it. */
  lemma ChunkContent(d: DiskInode, blocks: seq<seq<byte>>, off: nat, c: nat)
    requires Mapped(d, blocks) && off < MAX_LENGTH && off % BLOCK_SECTOR_SIZE + c <= BLOCK_SECTOR_SIZE
    ensures off + c <= MAX_LENGTH
    ensures forall pos :: off <= pos < off + c ==>
              GetSector(d, blocks, pos) == GetSector(d, blocks, off)
              && pos % BLOCK_SECTOR_SIZE == off % BLOCK_SECTOR_SIZE + (pos - off)
  {
    var q := off / BLOCK_SECTOR_SIZE;
    assert off == BLOCK_SECTOR_SIZE * q + off % BLOCK_SECTOR_SIZE;
    assert q < INODE_MAX_SECTOR;
    forall pos | off <= pos < off + c
      ensures pos / BLOCK_SECTOR_SIZE == q && pos % BLOCK_SECTOR_SIZE == off % BLOCK_SECTOR_SIZE + (pos - off)
    {
    }
  }

  /** The sectors inode_close hands back for a removed inode, in the order
      it releases them: the data sector of every block below the length,
      the second-level index sectors, the double-indirect sector, the
      single-indirect sector and the record's own sector. A hole or a
      missing index sector shows as the sentinel. */
  ghost function Released(d: DiskInode, blocks: seq<seq<byte>>, isector: u32): (r: seq<u32>)
    requires Readable(d, blocks) && d.length as nat <= MAX_LENGTH
    ensures |r| == SectorsOf(d.length as nat) + SECTOR_CAPACITY + 3
  {
    DataPtrs(d, blocks)[..SectorsOf(d.length as nat)] + IndexPtrs(d, blocks)[2..] + [d.double, d.single, isector]
  }

  /** The entries of Released: the data sector of every block below the
      length, the second-level sectors in outer-slot order, then the
      double- and single-indirect sectors, then the record's. */
  lemma ReleasedIndex(d: DiskInode, blocks: seq<seq<byte>>, isector: u32)
    requires Readable(d, blocks) && d.length as nat <= MAX_LENGTH
    ensures var r, n := Released(d, blocks, isector), SectorsOf(d.length as nat);
            && (forall j :: 0 <= j < n ==> r[j] == BlockAt(d, blocks, j))
            && (forall o :: 0 <= o < SECTOR_CAPACITY ==> r[n + o] == Second(d, blocks, o))
            && r[n + SECTOR_CAPACITY] == d.double && r[n + SECTOR_CAPACITY + 1] == d.single
            && r[n + SECTOR_CAPACITY + 2] == isector
  {
    var r, n := Released(d, blocks, isector), SectorsOf(d.length as nat);
    var q := IndexPtrs(d, blocks);
    forall o | 0 <= o < SECTOR_CAPACITY ensures r[n + o] == Second(d, blocks, o) {
      assert r[n + o] == q[2 + o];
    }
  }

  /** Where entry j of Released comes from in Pointers, when it is not the
      record's sector; n is the number of data blocks released. */
  function Origin(j: nat, n: nat): nat
  {
    if j < n then DataPos(j) else if j < n + SECTOR_CAPACITY then 2 + (j - n) else if j == n + SECTOR_CAPACITY then 1 else 0
  }

  /** Every entry of r other than the sentinel is in use and comes up only once. */
  ghost predicate Releasable(r: seq<u32>, bits: seq<bool>)
  {
    forall j :: 0 <= j < |r| && r[j] != SENTINEL ==> r[j] < |bits| && bits[r[j]] && r[j] !in r[..j]
  }

  /** bits is b0 with every sector of ps released. */
  ghost predicate Cleared(bits: seq<bool>, b0: seq<bool>, ps: seq<u32>)
  {
    |bits| == |b0| && forall x :: 0 <= x < |b0| ==> bits[x] == (b0[x] && x !in ps)
  }

  /** The sectors a removed inode gives back: its record's sector and every
      sector its index reaches. */
  ghost predicate Owns(d: DiskInode, blocks: seq<seq<byte>>, isector: nat, x: nat)
    requires Readable(d, blocks)
  {
    x == isector || (x != SENTINEL && x in Pointers(d, blocks))
  }

  /** A record reads the same index wherever its index sectors keep their
      contents: a write elsewhere on the device leaves the inode it
      belongs to intact. */
  lemma TreeKept(d: DiskInode, blocks: seq<seq<byte>>, b2: seq<seq<byte>>, bits: seq<bool>, isector: nat)
    requires Tree(d, blocks, bits, isector) && Sized(b2) && |b2| == |blocks|
    requires forall x :: 0 <= x < |blocks| && x in IndexPtrs(d, blocks) ==> b2[x] == blocks[x]
    ensures Tree(d, b2, bits, isector) && Pointers(d, b2) == Pointers(d, blocks)
    ensures forall j :: 0 <= j < INODE_MAX_SECTOR ==> BlockAt(d, b2, j) == BlockAt(d, blocks, j)
  {
    var q := IndexPtrs(d, blocks);
    if d.double != SENTINEL {
      assert q[1] == d.double;
    }
    forall o | 0 <= o < SECTOR_CAPACITY ensures Second(d, b2, o) == Second(d, blocks, o) {
      if d.double != SENTINEL {
        assert q[1] == d.double;
      }
    }
    assert Readable(d, b2);
    forall j | 0 <= j < INODE_MAX_SECTOR ensures BlockAt(d, b2, j) == BlockAt(d, blocks, j) {
      match SlotFor(j)
      case Direct(_) =>
      case Single(_) =>
        if d.single != SENTINEL {
          assert q[0] == d.single;
        }
      case Double(o, _) =>
        var l := Second(d, blocks, o);
        if l != SENTINEL {
          assert q[2 + o] == l;
        }
    }
    assert IndexPtrs(d, b2) == q;
    assert DataPtrs(d, b2) == DataPtrs(d, blocks);
  }

  /** Every entry of Released but the last is the entry of Pointers that
      Origin names. */
  lemma ReleasedOrigin(d: DiskInode, blocks: seq<seq<byte>>, isector: u32)
    requires Readable(d, blocks) && d.length as nat <= MAX_LENGTH
    ensures var r, n := Released(d, blocks, isector), SectorsOf(d.length as nat);
            forall j :: 0 <= j < |r| - 1 ==> r[j] == Pointers(d, blocks)[Origin(j, n)]
  {
    var p := Pointers(d, blocks);
    var r := Released(d, blocks, isector);
    var n := SectorsOf(d.length as nat);
    forall j | 0 <= j < |r| - 1 ensures r[j] == p[Origin(j, n)] {
      if j < n {
        PointerOfBlock(d, blocks, j);
      }
    }
  }

  /** A block that is mapped lies below a length the file is trimmed to. */
  lemma TrimmedBelow(d: DiskInode, blocks: seq<seq<byte>>, len: nat, index: nat)
    requires Readable(d, blocks) && Trimmed(d, blocks, len) && index < INODE_MAX_SECTOR
    requires BlockAt(d, blocks, index) != SENTINEL
    ensures index < SectorsOf(len)
  {
  }

  /** An inode tree releases no sector twice and only sectors in use. */
  lemma ReleasedOwned(d: DiskInode, blocks: seq<seq<byte>>, bits: seq<bool>, isector: u32)
    requires Tree(d, blocks, bits, isector)
    ensures Releasable(Released(d, blocks, isector), bits)
  {
    var p := Pointers(d, blocks);
    var r := Released(d, blocks, isector);
    var n := SectorsOf(d.length as nat);
    ReleasedOrigin(d, blocks, isector);
    forall j | 0 <= j < |r| && r[j] != SENTINEL ensures r[j] < |bits| && bits[r[j]] && r[j] !in r[..j] {
      forall k | 0 <= k < j ensures r[k] != r[j] {
        if j < |r| - 1 {
          Distinct(p, Origin(j, n), Origin(k, n));
        }
      }
    }
  }

  /** With no block past the length, the released sectors are exactly the
      sectors the inode owns. */
  lemma ReleasedAll(d: DiskInode, blocks: seq<seq<byte>>, bits: seq<bool>, isector: u32)
    requires Tree(d, blocks, bits, isector) && Trimmed(d, blocks, d.length as nat)
    ensures forall x :: 0 <= x < |bits| && x != SENTINEL ==>
              (x in Released(d, blocks, isector) <==> Owns(d, blocks, isector, x))
  {
    var p := Pointers(d, blocks);
    var r := Released(d, blocks, isector);
    var n := SectorsOf(d.length as nat);
    ReleasedOrigin(d, blocks, isector);
    forall x | 0 <= x < |bits| && x != SENTINEL && Owns(d, blocks, isector, x) ensures x in r {
      if x == isector {
        assert r[|r| - 1] == x;
      } else {
        var a :| 0 <= a < |p| && p[a] == x;
        if a >= DataPos(0) {
          var k := a - DataPos(0);
          PointerOfBlock(d, blocks, k);
          TrimmedBelow(d, blocks, d.length as nat, k);
          assert r[k] == p[Origin(k, n)];
        } else if a >= 2 {
          assert r[n + a - 2] == x;
        } else {
          assert r[n + SECTOR_CAPACITY + 1 - a] == x;
        }
      }
    }
  }

  /** Releasing entry j of a releasable list, or skipping it when it is
      the sentinel, extends the released prefix by one. */
  lemma ClearStep(bits: seq<bool>, b0: seq<bool>, r: seq<u32>, j: nat)
    requires Releasable(r, b0) && j < |r| && Cleared(bits, b0, r[..j]) && |b0| <= SENTINEL
    ensures r[j] != SENTINEL ==> r[j] < |bits| && bits[r[j]] && Cleared(bits[r[j] := false], b0, r[..j + 1])
    ensures r[j] == SENTINEL ==> Cleared(bits, b0, r[..j + 1])
  {
    assert r[..j + 1] == r[..j] + [r[j]];
  }

  /** A run of sentinels adds nothing to release. */
  lemma ClearSkip(bits: seq<bool>, b0: seq<bool>, r: seq<u32>, a: nat, b: nat)
    requires a <= b <= |r| && Cleared(bits, b0, r[..a]) && |b0| <= SENTINEL
    requires forall j :: a <= j < b ==> r[j] == SENTINEL
    ensures Cleared(bits, b0, r[..b])
  {
    forall x | 0 <= x < |b0| ensures x in r[..b] <==> x in r[..a] {
      if x in r[..b] {
        var j :| 0 <= j < b && r[j] == x;
        assert r[..a][j] == x;
      }
    }
  }

  /** What a file reads as once n bytes of data are written at offset over
      what d0 on b0 read as: those bytes there, the old bytes elsewhere. */
  ghost predicate Written(d0: DiskInode, b0: seq<seq<byte>>, d: DiskInode, blocks: seq<seq<byte>>,
                          data: seq<byte>, offset: nat, n: nat)
  {
    Mapped(d0, b0) && Mapped(d, blocks) && n <= |data| && offset + n <= MAX_LENGTH
    && forall pos :: 0 <= pos < MAX_LENGTH ==>
         Content(d, blocks, pos) == if offset <= pos < offset + n then data[pos - offset] else Content(d0, b0, pos)
  }

  /** The sector image cache_write leaves: src over b from offset at. */
  function Splice(b: seq<byte>, at: nat, src: seq<byte>): (r: seq<byte>)
    requires at + |src| <= |b|
    ensures |r| == |b|
    ensures forall j :: 0 <= j < |b| ==> r[j] == if at <= j < at + |src| then src[j - at] else b[j]
  {
    b[..at] + src + b[at + |src|..]
  }

  /** Writing src at off into the file's data sector for off keeps the
      tree and every pointer; the file then reads src from off on and
      nothing else of it changes. */
  lemma WriteChunk(d: DiskInode, blocks: seq<seq<byte>>, bits: seq<bool>, isector: nat, off: nat, src: seq<byte>)
    requires Tree(d, blocks, bits, isector) && off < MAX_LENGTH && off % BLOCK_SECTOR_SIZE + |src| <= BLOCK_SECTOR_SIZE
    requires Mapped(d, blocks) && GetSector(d, blocks, off) != SENTINEL
    ensures var s := GetSector(d, blocks, off);
            var b2 := blocks[s := Splice(blocks[s], off % BLOCK_SECTOR_SIZE, src)];
            s < |blocks| && s != isector && Tree(d, b2, bits, isector) && Mapped(d, b2)
            && (forall j :: 0 <= j < INODE_MAX_SECTOR ==> BlockAt(d, b2, j) == BlockAt(d, blocks, j))
            && forall pos :: 0 <= pos < MAX_LENGTH ==>
                 Content(d, b2, pos) == if off <= pos < off + |src| then src[pos - off] else Content(d, blocks, pos)
  {
    var s := GetSector(d, blocks, off);
    var k := off / BLOCK_SECTOR_SIZE;
    var at := off % BLOCK_SECTOR_SIZE;
    var b2 := blocks[s := Splice(blocks[s], at, src)];
    var p := Pointers(d, blocks);
    PointerOfBlock(d, blocks, k);
    forall a | 0 <= a < |IndexPtrs(d, blocks)| ensures IndexPtrs(d, blocks)[a] != s {
      assert p[a] == IndexPtrs(d, blocks)[a];
      Distinct(p, DataPos(k), a);
    }
    WriteOther(d, blocks, s, Splice(blocks[s], at, src));
    forall j | 0 <= j < INODE_MAX_SECTOR ensures BlockAt(d, b2, j) == BlockAt(d, blocks, j) {
      PointerOfBlock(d, b2, j);
      PointerOfBlock(d, blocks, j);
    }
    TreeMapped(d, b2, bits, isector);
    assert off == BLOCK_SECTOR_SIZE * k + at;
    forall pos | 0 <= pos < MAX_LENGTH
      ensures Content(d, b2, pos) == if off <= pos < off + |src| then src[pos - off] else Content(d, blocks, pos)
    {
      var kp := pos / BLOCK_SECTOR_SIZE;
      assert pos == BLOCK_SECTOR_SIZE * kp + pos % BLOCK_SECTOR_SIZE;
      var sp := BlockAt(d, blocks, kp);
      if sp == s && kp != k {
        PointerOfBlock(d, blocks, kp);
        Distinct(p, DataPos(k), DataPos(kp));
      }
    }
  }

  /** A file that reads the same, written the same. */
  lemma WrittenSame(d0: DiskInode, b0: seq<seq<byte>>, d: DiskInode, b1: seq<seq<byte>>, d2: DiskInode, b2: seq<seq<byte>>,
                    data: seq<byte>, offset: nat, n: nat)
    requires Written(d0, b0, d, b1, data, offset, n) && Mapped(d2, b2)
    requires forall pos :: 0 <= pos < MAX_LENGTH ==> Content(d2, b2, pos) == Content(d, b1, pos)
    ensures Written(d0, b0, d2, b2, data, offset, n)
  {
  }

  /** Writing the next c bytes of data at offset + n extends the written
      prefix to n + c. */
  lemma ChunkWritten(d0: DiskInode, b0: seq<seq<byte>>, d: DiskInode, b1: seq<seq<byte>>, d2: DiskInode, b2: seq<seq<byte>>,
                     data: seq<byte>, offset: nat, n: nat, c: nat)
    requires Written(d0, b0, d, b1, data, offset, n) && Mapped(d2, b2)
    requires n + c <= |data| && offset + n + c <= MAX_LENGTH
    requires forall pos :: 0 <= pos < MAX_LENGTH ==>
               Content(d2, b2, pos) == if offset + n <= pos < offset + n + c then data[n..n + c][pos - (offset + n)]
                                       else Content(d, b1, pos)
    ensures Written(d0, b0, d2, b2, data, offset, n + c)
  {
    forall pos | 0 <= pos < MAX_LENGTH
      ensures Content(d2, b2, pos) == if offset <= pos < offset + n + c then data[pos - offset] else Content(d0, b0, pos)
    {
      if offset + n <= pos < offset + n + c {
        assert data[n..n + c][pos - (offset + n)] == data[pos - offset];
      }
    }
  }

  /** Setting the length changes neither the tree nor any byte. */
  lemma Relength(d: DiskInode, blocks: seq<seq<byte>>, bits: seq<bool>, isector: nat, len: u32)
    requires Tree(d, blocks, bits, isector) && len as nat <= MAX_LENGTH
    ensures Tree(d.(length := len), blocks, bits, isector)
    ensures Mapped(d, blocks) && Mapped(d.(length := len), blocks)
    ensures forall j :: 0 <= j < INODE_MAX_SECTOR ==> BlockAt(d.(length := len), blocks, j) == BlockAt(d, blocks, j)
    ensures forall pos :: 0 <= pos < MAX_LENGTH ==> Content(d.(length := len), blocks, pos) == Content(d, blocks, pos)
  {
    var d2 := d.(length := len);
    forall o | 0 <= o < SECTOR_CAPACITY ensures Second(d2, blocks, o) == Second(d, blocks, o) {
    }
    assert Readable(d2, blocks);
    assert IndexPtrs(d2, blocks) == IndexPtrs(d, blocks);
    assert DataPtrs(d2, blocks) == DataPtrs(d, blocks);
    TreeMapped(d, blocks, bits, isector);
    TreeMapped(d2, blocks, bits, isector);
  }

  /** inode_write_at's update of the length past the end of a write, with
      the record written back to its sector: the tree, every byte and a
      length bound that held for the new length all carry over. */
  lemma SetLength(d: DiskInode, blocks: seq<seq<byte>>, bits: seq<bool>, isector: nat, len: u32)
    requires Tree(d, blocks, bits, isector) && len as nat <= MAX_LENGTH && WellFormed(d)
    ensures var d2 := d.(length := len);
            var b2 := blocks[isector := EncodeInode(d2)];
            Tree(d2, b2, bits, isector) && Mapped(d, blocks) && Mapped(d2, b2)
            && (forall pos :: 0 <= pos < MAX_LENGTH ==> Content(d2, b2, pos) == Content(d, blocks, pos))
            && (Trimmed(d, blocks, len as nat) ==> Trimmed(d2, b2, len as nat))
  {
    var d2 := d.(length := len);
    Relength(d, blocks, bits, isector, len);
    assert WellFormed(d2);
    var b2 := blocks[isector := EncodeInode(d2)];
    RecordWrite(d2, blocks, bits, isector, EncodeInode(d2));
    if Trimmed(d, blocks, len as nat) {
      forall j | SectorsOf(len as nat) <= j < INODE_MAX_SECTOR ensures BlockAt(d2, b2, j) == SENTINEL {
        assert BlockAt(d2, blocks, j) == BlockAt(d, blocks, j);
      }
    }
  }
}
