/** Three places where src/filesys/inode.c as written departs from what it
    evidently intends, modelled as written so that the departure shows on
    an input: extend_inode's failure paths in the single-indirect and the
    double-indirect ranges, and inode_close's release of holes. The rest of the model follows the intended behaviour:
    Inode.InodeTable.Extend gives back what it took when it fails, and
    Inode.InodeTable.Free skips holes. */
module InodeAsWritten {
  import opened Bytes
  import opened Block
  import opened Bitmap
  import opened FreeMap
  import opened InodeDisk
  import opened InodeFile

  /** extend_inode as written for a block of the single-indirect range when
      the single-indirect sector is not there yet: it takes that sector
      straight into the record, then asks for the data sector. Gives
      success, the record and the free map; when the second allocation
      fails the record keeps the new pointer, the sector stays in use and
      nothing was written to it. */
  function ExtendSingleAsWritten(d: DiskInode, bits: seq<bool>): (r: (bool, DiskInode, seq<bool>))
    requires d.single == SENTINEL && |bits| <= SENTINEL
    ensures r.0 ==> r.1.single != SENTINEL
    ensures !r.0 && FirstFree(bits) >= 0 ==>
              r.1.single < |bits| && !bits[r.1.single] && r.2 == bits[r.1.single := true]
    ensures FirstFree(bits) < 0 ==> !r.0 && r.1 == d && r.2 == bits
  {
    var t := FirstFree(bits);
    if t < 0 then (false, d, bits)
    else
      var bits1 := bits[t := true];
      var s := FirstFree(bits1);
      if s < 0 then (false, d.(single := t as u32), bits1)
      else (true, d.(single := t as u32), bits1[s := true])
  }

  /** On a device whose one free sector has never been written (zeros, as
      on a freshly made disk), extending a file into the single-indirect
      range fails, yet leaves the record pointing at that sector: every
      block of the range then maps to sector 0, the free map's own inode,
      and the record is no longer an inode tree. */
  lemma ExtendSingleStale(d: DiskInode, blocks: seq<seq<byte>>, bits: seq<bool>, isector: u32)
    requires Tree(d, blocks, bits, isector) && d.single == SENTINEL && |bits| <= SENTINEL
    requires FirstFree(bits) >= 0 && FirstFree(bits[FirstFree(bits) := true]) == -1
    requires blocks[FirstFree(bits)] == Zeros(BLOCK_SECTOR_SIZE)
    ensures var r := ExtendSingleAsWritten(d, bits);
            !r.0 && r.1.single as int == FirstFree(bits) && Readable(r.1, blocks)
            && (forall index :: DIRECT_LIMIT <= index < SINGLE_INDIRECT_LIMIT ==> BlockAt(r.1, blocks, index) == FREE_MAP_SECTOR)
            && !Tree(r.1, blocks, r.2, isector)
  {
    var r := ExtendSingleAsWritten(d, bits);
    var d2 := r.1;
    forall o | 0 <= o < SECTOR_CAPACITY ensures Second(d2, blocks, o) == Second(d, blocks, o) {
    }
    assert Readable(d2, blocks);
    forall index | DIRECT_LIMIT <= index < SINGLE_INDIRECT_LIMIT
      ensures BlockAt(d2, blocks, index) == FREE_MAP_SECTOR
    {
      SlotPartition(index);
    }
    if Tree(d2, blocks, r.2, isector) {
      var p := Pointers(d2, blocks);
      PointerOfBlock(d2, blocks, DIRECT_LIMIT);
      PointerOfBlock(d2, blocks, DIRECT_LIMIT + 1);
      Distinct(p, DataPos(DIRECT_LIMIT), DataPos(DIRECT_LIMIT + 1));
      assert false;
    }
  }

  /** extend_inode as written for a block of the double-indirect range at
      outer slot o: a missing double-indirect sector is taken straight into
      the record, a missing second-level sector straight into the
      in-memory double-indirect table, then the data sector is asked for.
      Gives success, the record and the free map. Nothing is given back
      when a later allocation fails, and the double-indirect table, the
      only place the second-level sector is linked from, is written only
      on success. */
  function ExtendDoubleAsWritten(d: DiskInode, blocks: seq<seq<byte>>, bits: seq<bool>, o: nat): (r: (bool, DiskInode, seq<bool>))
    requires Readable(d, blocks) && |bits| <= SENTINEL && o < SECTOR_CAPACITY
    ensures |r.2| == |bits| && forall x :: 0 <= x < |bits| && bits[x] ==> r.2[x]
    ensures FirstFree(bits) < 0 ==> !r.0 && r.1 == d && r.2 == bits
    ensures d.double != SENTINEL ==> r.1 == d
    ensures d.double == SENTINEL && FirstFree(bits) >= 0 ==> r.1 == d.(double := FirstFree(bits) as u32)
    ensures !r.0 && FirstFree(bits) >= 0 && Second(d, blocks, o) == SENTINEL ==>
              r.2[FirstFree(bits)] && r.2 != bits
  {
    if d.double == SENTINEL then
      var t := FirstFree(bits);
      if t < 0 then (false, d, bits)
      else
        var d1 := d.(double := t as u32);
        var bits1 := bits[t := true];
        var u := FirstFree(bits1);
        if u < 0 then (false, d1, bits1)
        else
          var bits2 := bits1[u := true];
          var s := FirstFree(bits2);
          if s < 0 then (false, d1, bits2) else (true, d1, bits2[s := true])
    else if Word(blocks[d.double], o) == SENTINEL then
      var u := FirstFree(bits);
      if u < 0 then (false, d, bits)
      else
        var bits1 := bits[u := true];
        var s := FirstFree(bits1);
        if s < 0 then (false, d, bits1) else (true, d, bits1[s := true])
    else
      var s := FirstFree(bits);
      if s < 0 then (false, d, bits) else (true, d, bits[s := true])
  }

  /** A file whose blocks below the double-indirect range are mapped,
      written at byte 71680 on a device with one free sector that has never
      been written: the extension fails, yet the record keeps that sector
      as its double-indirect sector and it stays in use. Read as a table of
      zeros, every second-level slot then points at sector 0, the free
      map's own inode, and the record is no longer an inode tree. */
  lemma ExtendDoubleStale(d: DiskInode, blocks: seq<seq<byte>>, bits: seq<bool>, isector: u32)
    requires Tree(d, blocks, bits, isector) && d.double == SENTINEL && |bits| <= SENTINEL
    requires FirstFree(bits) >= 0 && FirstFree(bits[FirstFree(bits) := true]) == -1
    requires blocks[FirstFree(bits)] == Zeros(BLOCK_SECTOR_SIZE)
    ensures SlotFor(71680 / BLOCK_SECTOR_SIZE) == Double(0, 0)
    ensures var r := ExtendDoubleAsWritten(d, blocks, bits, 0);
            !r.0 && r.1.double as int == FirstFree(bits) && r.2 == bits[FirstFree(bits) := true]
            && Readable(r.1, blocks)
            && (forall o :: 0 <= o < SECTOR_CAPACITY ==> Second(r.1, blocks, o) == FREE_MAP_SECTOR)
            && !Tree(r.1, blocks, r.2, isector)
  {
    SlotPartition(71680 / BLOCK_SECTOR_SIZE);
    var r := ExtendDoubleAsWritten(d, blocks, bits, 0);
    var d2 := r.1;
    forall o | 0 <= o < SECTOR_CAPACITY ensures Second(d2, blocks, o) == FREE_MAP_SECTOR {
    }
    assert Readable(d2, blocks);
    if Tree(d2, blocks, r.2, isector) {
      var p := Pointers(d2, blocks);
      assert p[2] == Second(d2, blocks, 0) && p[3] == Second(d2, blocks, 1);
      Distinct(p, 2, 3);
      assert false;
    }
  }

  /** A file whose double-indirect sector has no second-level sector at
      outer slot o yet, extended there on a device with one free sector:
      the extension fails and the record is unchanged, yet that sector
      stays in use although the inode does not own it, and nothing links
      to it on the device. */
  lemma ExtendSecondLeaks(d: DiskInode, blocks: seq<seq<byte>>, bits: seq<bool>, isector: u32, o: nat)
    requires Tree(d, blocks, bits, isector) && |bits| <= SENTINEL && o < SECTOR_CAPACITY
    requires d.double != SENTINEL && Second(d, blocks, o) == SENTINEL
    requires FirstFree(bits) >= 0 && FirstFree(bits[FirstFree(bits) := true]) == -1
    ensures var u := FirstFree(bits);
            var r := ExtendDoubleAsWritten(d, blocks, bits, o);
            !r.0 && r.1 == d && r.2 == bits[u := true] && r.2 != bits
            && forall a :: 0 <= a < |Pointers(d, blocks)| ==> Pointers(d, blocks)[a] != u
  {
    var u := FirstFree(bits);
    FreeNotOwned(Pointers(d, blocks), bits, isector, u);
  }

  /** The sectors inode_close's first removal loop hands to
      free_map_release as written: byte_to_sector of every block below the
      length, holes included. */
  function CloseDataArgsAsWritten(d: DiskInode, blocks: seq<seq<byte>>): (r: seq<u32>)
    requires Readable(d, blocks) && d.length as nat <= MAX_LENGTH
    ensures r == DataPtrs(d, blocks)[..SectorsOf(d.length as nat)]
  {
    seq(SectorsOf(d.length as nat), j requires 0 <= j < SectorsOf(d.length as nat) =>
      ByteToSector(d, blocks, j * BLOCK_SECTOR_SIZE))
  }

  /** A 512-byte file that inode_create could not give a block, because
      the free map was full, is a sound inode with a hole below its length;
      removing and closing it hands the sentinel to free_map_release, which
      lies past every free map of at most 2^32 - 1 sectors. */
  lemma CloseHoleAsWritten(parent: u32, blocks: seq<seq<byte>>, bits: seq<bool>, isector: u32)
    requires Sized(blocks) && |bits| == |blocks| && |bits| <= SENTINEL
    requires isector < |bits| && bits[isector] && isector != SENTINEL
    ensures var d := NewRecord(BLOCK_SECTOR_SIZE as u32, parent);
            Tree(d, blocks, bits, isector) && Trimmed(d, blocks, d.length as nat)
            && CloseDataArgsAsWritten(d, blocks) == [SENTINEL] && SENTINEL >= |bits|
  {
    var d := NewRecord(BLOCK_SECTOR_SIZE as u32, parent);
    NewRecordTree(BLOCK_SECTOR_SIZE as u32, parent, blocks, bits, isector);
    TrimmedMono(d, blocks, 0, BLOCK_SECTOR_SIZE);
    assert SectorsOf(BLOCK_SECTOR_SIZE) == 1;
  }
}
