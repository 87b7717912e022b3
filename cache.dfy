/** The buffer cache of src/filesys/cache.c: up to MAX_CACHE_SIZE sector
    buffers in front of the file-system device, found by a linear scan of
    cache_list, written behind (on eviction, deletion, write-back and the
    periodic flush) and replaced by the second-chance policy. Locks and the
    flusher and read-ahead threads are not modelled; each operation runs
    to completion on its own. */
module Cache {
  import opened Bytes
  import opened Bitmap
  import opened Block

  const MAX_CACHE_SIZE: nat := 64

  /** struct cache: the cached sector, the buffer slot that holds it, and
      the dirty and ref bits (ref is used by cache.c though the header omits it). */
  datatype Entry = Entry(sector: nat, bufpos: nat, dirty: bool, ref: bool)

  /** The buffer slot caching sector s, or -1 when s is not cached. */
  function SlotOf(es: seq<Entry>, s: nat): (r: int)
    ensures r >= -1
  {
    if es == [] then -1
    else if es[0].sector == s then es[0].bufpos
    else SlotOf(es[1..], s)
  }

  /** scan_cache finds nothing exactly when no entry holds the sector. */
  lemma {:induction false} SlotOfNone(es: seq<Entry>, s: nat)
    ensures SlotOf(es, s) == -1 <==> forall i :: 0 <= i < |es| ==> es[i].sector != s
  {
    if es != [] && es[0].sector != s {
      SlotOfNone(es[1..], s);
      assert forall i :: 1 <= i < |es| ==> es[i] == es[1..][i - 1];
    }
  }

  /** When scan_cache finds a slot, some entry holds the sector in it. */
  lemma {:induction false} SlotOfFound(es: seq<Entry>, s: nat) returns (j: nat)
    requires SlotOf(es, s) >= 0
    ensures j < |es| && es[j].sector == s && es[j].bufpos == SlotOf(es, s)
  {
    if es[0].sector == s {
      j := 0;
    } else {
      var k := SlotOfFound(es[1..], s);
      j := k + 1;
    }
  }

  /** No sector and no buffer slot appears in two entries. */
  ghost predicate Distinct(es: seq<Entry>)
  {
    forall i, j :: 0 <= i < j < |es| ==> es[i].sector != es[j].sector && es[i].bufpos != es[j].bufpos
  }

  lemma SlotOfEntry(es: seq<Entry>, i: nat)
    requires Distinct(es) && i < |es|
    ensures SlotOf(es, es[i].sector) == es[i].bufpos
  {
    var s := es[i].sector;
    SlotOfNone(es, s);
    var j := SlotOfFound(es, s);
    assert i == j;
  }

  /** A clean entry's buffer equals its sector on the device. */
  ghost predicate Coherent(es: seq<Entry>, slots: seq<seq<byte>>, blocks: seq<seq<byte>>)
  {
    forall i :: 0 <= i < |es| && !es[i].dirty && es[i].bufpos < |slots| && es[i].sector < |blocks| ==>
      slots[es[i].bufpos] == blocks[es[i].sector]
  }

  /** The invariant of the cache: one entry per set bit of cache_bmap, each
      on a distinct sector and slot, clean entries equal to the device. */
  ghost predicate Inv(es: seq<Entry>, bmap: seq<bool>, slots: seq<seq<byte>>, blocks: seq<seq<byte>>)
  {
    |bmap| == MAX_CACHE_SIZE && |slots| == MAX_CACHE_SIZE
    && Sized(slots) && Sized(blocks)
    && Count(bmap) == |es|
    && (forall i :: 0 <= i < |es| ==> es[i].bufpos < MAX_CACHE_SIZE && bmap[es[i].bufpos] && es[i].sector < |blocks|)
    && Distinct(es)
    && Coherent(es, slots, blocks)
  }

  /** What a reader of sector s sees: the cached buffer when there is one,
      the device sector otherwise. */
  ghost function ViewOf(es: seq<Entry>, slots: seq<seq<byte>>, blocks: seq<seq<byte>>, s: nat): seq<byte>
    requires s < |blocks|
  {
    var p := SlotOf(es, s);
    if 0 <= p < |slots| then slots[p] else blocks[s]
  }

  /** An uncached sector reads as the device's own contents. */
  lemma UncachedView(es: seq<Entry>, slots: seq<seq<byte>>, blocks: seq<seq<byte>>, s: nat)
    requires s < |blocks| && SlotOf(es, s) == -1
    ensures ViewOf(es, slots, blocks, s) == blocks[s]
  {
  }

  function RemoveAt(es: seq<Entry>, i: nat): (r: seq<Entry>)
    requires i < |es|
    ensures |r| == |es| - 1
    ensures forall j :: 0 <= j < |r| ==> r[j] == if j < i then es[j] else es[j + 1]
  {
    es[..i] + es[i + 1..]
  }

  /** Index of the first entry whose ref bit is clear, or -1. */
  function FirstUnreferenced(es: seq<Entry>): (r: int)
    ensures -1 <= r < |es|
    ensures r == -1 <==> forall i :: 0 <= i < |es| ==> es[i].ref
    ensures r >= 0 ==> !es[r].ref && forall i :: 0 <= i < r ==> es[i].ref
  {
    if es == [] then -1
    else if !es[0].ref then 0
    else var r := FirstUnreferenced(es[1..]); if r == -1 then -1 else r + 1
  }

  /** es with the ref bits of its first n entries cleared. */
  function ClearRefs(es: seq<Entry>, n: nat): (r: seq<Entry>)
    requires n <= |es|
    ensures |r| == |es|
    ensures forall i :: 0 <= i < |es| ==> r[i] == if i < n then es[i].(ref := false) else es[i]
  {
    seq(|es|, i requires 0 <= i < |es| => if i < n then es[i].(ref := false) else es[i])
  }

  /** The position evict_cache settles on: the first entry without its ref
      bit, or the head once the scan has wrapped around. */
  function Victim(es: seq<Entry>): (v: nat)
    requires |es| > 0
    ensures v < |es|
  {
    var f := FirstUnreferenced(es);
    if f >= 0 then f else 0
  }

  /** The entries once the scan has reached the victim: every entry it
      passed has lost its ref bit. */
  function AfterScan(es: seq<Entry>): seq<Entry>
    requires |es| > 0
  {
    var f := FirstUnreferenced(es);
    ClearRefs(es, if f >= 0 then f else |es|)
  }

  /** Second chance: a referenced entry is evicted only when every entry was
      referenced, in which case it is the head; the scan clears the ref bit
      of exactly the entries before the victim (all of them when it wraps),
      the victim leaves with ref clear, and nothing else changes. */
  lemma SecondChance(es: seq<Entry>)
    requires |es| > 0
    ensures es[Victim(es)].ref ==> Victim(es) == 0 && forall i :: 0 <= i < |es| ==> es[i].ref
    ensures !AfterScan(es)[Victim(es)].ref
    ensures forall i :: 0 <= i < |es| ==>
              AfterScan(es)[i] == es[i].(ref := es[i].ref && i > Victim(es) && !es[Victim(es)].ref)
  {
  }

  /** Entries with the same sectors and slots in the same order see the
      same buffers. */
  lemma {:induction false} SameKeys(es: seq<Entry>, fs: seq<Entry>, s: nat)
    requires |es| == |fs|
    requires forall i :: 0 <= i < |es| ==> es[i].sector == fs[i].sector && es[i].bufpos == fs[i].bufpos
    ensures SlotOf(es, s) == SlotOf(fs, s)
  {
    if es != [] {
      SameKeys(es[1..], fs[1..], s);
    }
  }

  /** The device after evict_cache or cache_delete has written entry e
      back: changed only when e is dirty. */
  function WriteBack(e: Entry, slots: seq<seq<byte>>, blocks: seq<seq<byte>>): seq<seq<byte>>
    requires e.bufpos < |slots| && e.sector < |blocks|
  {
    if e.dirty then blocks[e.sector := slots[e.bufpos]] else blocks
  }

  /** Removing entry v, after writing its buffer to the device when it is
      dirty, changes what no reader sees. */
  lemma RemoveView(es: seq<Entry>, slots: seq<seq<byte>>, blocks: seq<seq<byte>>, v: nat)
    requires v < |es| && Distinct(es) && Coherent(es, slots, blocks)
    requires forall i :: 0 <= i < |es| ==> es[i].bufpos < |slots| && es[i].sector < |blocks|
    ensures Distinct(RemoveAt(es, v))
    ensures Coherent(RemoveAt(es, v), slots, WriteBack(es[v], slots, blocks))
    ensures forall s :: 0 <= s < |blocks| ==>
              ViewOf(RemoveAt(es, v), slots, WriteBack(es[v], slots, blocks), s) == ViewOf(es, slots, blocks, s)
  {
    var rest := RemoveAt(es, v);
    var after := WriteBack(es[v], slots, blocks);
    forall s | 0 <= s < |blocks| ensures ViewOf(rest, slots, after, s) == ViewOf(es, slots, blocks, s) {
      RemoveViewAt(es, slots, blocks, v, s);
    }
    forall i | 0 <= i < |rest| && !rest[i].dirty ensures slots[rest[i].bufpos] == after[rest[i].sector] {
      var k := if i < v then i else i + 1;
      assert rest[i] == es[k] && k != v;
    }
  }

  lemma RemoveViewAt(es: seq<Entry>, slots: seq<seq<byte>>, blocks: seq<seq<byte>>, v: nat, s: nat)
    requires v < |es| && Distinct(es) && Coherent(es, slots, blocks) && s < |blocks|
    requires forall i :: 0 <= i < |es| ==> es[i].bufpos < |slots| && es[i].sector < |blocks|
    ensures ViewOf(RemoveAt(es, v), slots, WriteBack(es[v], slots, blocks), s) == ViewOf(es, slots, blocks, s)
  {
    var rest := RemoveAt(es, v);
    if s == es[v].sector {
      SlotOfEntry(es, v);
      assert SlotOf(rest, s) == -1 by {
        forall j | 0 <= j < |rest| ensures rest[j].sector != s {
          assert rest[j] == es[if j < v then j else j + 1];
        }
        SlotOfNone(rest, s);
      }
    } else if j :| 0 <= j < |rest| && rest[j].sector == s {
      RemoveKeepsSlot(es, v, j);
    } else {
      RemoveUncached(es, v, s);
    }
  }

  lemma RemoveKeepsSlot(es: seq<Entry>, v: nat, j: nat)
    requires v < |es| && Distinct(es) && j < |es| - 1
    ensures Distinct(RemoveAt(es, v))
    ensures SlotOf(RemoveAt(es, v), RemoveAt(es, v)[j].sector) == SlotOf(es, RemoveAt(es, v)[j].sector)
  {
    var rest := RemoveAt(es, v);
    var k := if j < v then j else j + 1;
    assert rest[j] == es[k];
    SlotOfEntry(rest, j);
    SlotOfEntry(es, k);
  }

  lemma RemoveUncached(es: seq<Entry>, v: nat, s: nat)
    requires v < |es| && es[v].sector != s
    requires forall j :: 0 <= j < |es| - 1 ==> RemoveAt(es, v)[j].sector != s
    ensures SlotOf(es, s) == -1 && SlotOf(RemoveAt(es, v), s) == -1
  {
    var rest := RemoveAt(es, v);
    forall i | 0 <= i < |es| ensures es[i].sector != s {
      if i < v { assert rest[i] == es[i]; } else if i > v { assert rest[i - 1] == es[i]; }
    }
    SlotOfNone(es, s);
    SlotOfNone(rest, s);
  }

  /** Appending a clean entry for an uncached sector in an unused slot
      loaded from the device changes what no reader sees. */
  lemma AppendView(es: seq<Entry>, slots: seq<seq<byte>>, blocks: seq<seq<byte>>, sector: nat, bp: nat)
    requires Distinct(es) && Coherent(es, slots, blocks) && sector < |blocks| && bp < |slots|
    requires forall i :: 0 <= i < |es| ==> es[i].sector != sector && es[i].bufpos != bp
    ensures var es' := es + [Entry(sector, bp, false, false)];
      var slots' := slots[bp := blocks[sector]];
      Distinct(es') && Coherent(es', slots', blocks)
      && forall s :: 0 <= s < |blocks| ==> ViewOf(es', slots', blocks, s) == ViewOf(es, slots, blocks, s)
  {
    var es' := es + [Entry(sector, bp, false, false)];
    var slots' := slots[bp := blocks[sector]];
    forall s | 0 <= s < |blocks| ensures ViewOf(es', slots', blocks, s) == ViewOf(es, slots, blocks, s) {
      if s == sector {
        SlotOfEntry(es', |es|);
        SlotOfNone(es, s);
      } else if j :| 0 <= j < |es| && es[j].sector == s {
        SlotOfEntry(es, j);
        SlotOfEntry(es', j);
      } else {
        assert SlotOf(es', s) == -1 && SlotOf(es, s) == -1 by {
          SlotOfNone(es, s);
          assert forall i :: 0 <= i < |es'| ==> es'[i].sector != s;
          SlotOfNone(es', s);
        }
      }
    }
  }

  /** Storing a new buffer for the entry of sector es[i].sector changes
      what readers of that sector see and nothing else. */
  lemma StoreView(es: seq<Entry>, slots: seq<seq<byte>>, blocks: seq<seq<byte>>, i: nat, data: seq<byte>)
    requires i < |es| && Distinct(es) && es[i].bufpos < |slots| && es[i].sector < |blocks|
    ensures forall s :: 0 <= s < |blocks| ==>
              ViewOf(es, slots[es[i].bufpos := data], blocks, s)
              == if s == es[i].sector then data else ViewOf(es, slots, blocks, s)
  {
    forall s | 0 <= s < |blocks|
      ensures ViewOf(es, slots[es[i].bufpos := data], blocks, s)
              == if s == es[i].sector then data else ViewOf(es, slots, blocks, s)
    {
      if s == es[i].sector {
        SlotOfEntry(es, i);
      } else if SlotOf(es, s) >= 0 {
        var j := SlotOfFound(es, s);
        assert j != i;
      }
    }
  }

  /** Writing entry i's buffer to its sector changes what no reader sees. */
  lemma FlushView(es: seq<Entry>, slots: seq<seq<byte>>, blocks: seq<seq<byte>>, i: nat)
    requires i < |es| && Distinct(es) && es[i].bufpos < |slots| && es[i].sector < |blocks|
    ensures forall s :: 0 <= s < |blocks| ==>
              ViewOf(es, slots, blocks[es[i].sector := slots[es[i].bufpos]], s) == ViewOf(es, slots, blocks, s)
  {
    forall s | 0 <= s < |blocks|
      ensures ViewOf(es, slots, blocks[es[i].sector := slots[es[i].bufpos]], s) == ViewOf(es, slots, blocks, s)
    {
      if s == es[i].sector {
        SlotOfEntry(es, i);
      }
    }
  }

  /** Entries with the same sectors and slots in the same order see the
      same buffers everywhere. */
  lemma SameKeysView(es: seq<Entry>, fs: seq<Entry>, slots: seq<seq<byte>>, blocks: seq<seq<byte>>)
    requires |es| == |fs| && Distinct(es)
    requires forall i :: 0 <= i < |es| ==> es[i].sector == fs[i].sector && es[i].bufpos == fs[i].bufpos
    ensures Distinct(fs)
    ensures forall s :: 0 <= s < |blocks| ==> ViewOf(fs, slots, blocks, s) == ViewOf(es, slots, blocks, s)
  {
    forall s | 0 <= s < |blocks| ensures ViewOf(fs, slots, blocks, s) == ViewOf(es, slots, blocks, s) {
      SameKeys(es, fs, s);
    }
  }

  /** When no entry is dirty, every reader sees the device. */
  lemma CleanView(es: seq<Entry>, bmap: seq<bool>, slots: seq<seq<byte>>, blocks: seq<seq<byte>>)
    requires Inv(es, bmap, slots, blocks)
    requires forall i :: 0 <= i < |es| ==> !es[i].dirty
    ensures forall s :: 0 <= s < |blocks| ==> ViewOf(es, slots, blocks, s) == blocks[s]
  {
    forall s | 0 <= s < |blocks| ensures ViewOf(es, slots, blocks, s) == blocks[s] {
      if SlotOf(es, s) >= 0 {
        var j := SlotOfFound(es, s);
      }
    }
  }

  /** Inv, except that slot bp is claimed in the bitmap and not yet used
      by any entry. */
  ghost predicate ClaimedInv(es: seq<Entry>, bmap: seq<bool>, slots: seq<seq<byte>>, blocks: seq<seq<byte>>, bp: nat)
  {
    |bmap| == MAX_CACHE_SIZE && |slots| == MAX_CACHE_SIZE && Sized(slots) && Sized(blocks)
    && bp < MAX_CACHE_SIZE && bmap[bp] && Count(bmap) == |es| + 1
    && (forall i :: 0 <= i < |es| ==>
          es[i].bufpos < MAX_CACHE_SIZE && bmap[es[i].bufpos] && es[i].sector < |blocks| && es[i].bufpos != bp)
    && Distinct(es) && Coherent(es, slots, blocks)
  }

  /** Loading an uncached sector into a claimed slot restores Inv and
      changes what no reader sees. */
  lemma AppendInv(es: seq<Entry>, bmap: seq<bool>, slots: seq<seq<byte>>, blocks: seq<seq<byte>>, bp: nat, sector: nat)
    requires ClaimedInv(es, bmap, slots, blocks, bp) && sector < |blocks| && SlotOf(es, sector) == -1
    ensures Inv(es + [Entry(sector, bp, false, false)], bmap, slots[bp := blocks[sector]], blocks)
    ensures forall s :: 0 <= s < |blocks| ==>
              ViewOf(es + [Entry(sector, bp, false, false)], slots[bp := blocks[sector]], blocks, s) == ViewOf(es, slots, blocks, s)
  {
    SlotOfNone(es, sector);
    AppendView(es, slots, blocks, sector, bp);
  }

  /** With every slot in use, removing the second-chance victim (written
      back when dirty) leaves its slot claimed and changes what no reader sees. */
  lemma EvictClaims(es: seq<Entry>, bmap: seq<bool>, slots: seq<seq<byte>>, blocks: seq<seq<byte>>, sector: nat)
    requires Inv(es, bmap, slots, blocks) && FirstFree(bmap) == -1 && SlotOf(es, sector) == -1
    ensures |es| == MAX_CACHE_SIZE
    ensures SlotOf(RemoveAt(AfterScan(es), Victim(es)), sector) == -1
    ensures var scanned := AfterScan(es);
      var v := Victim(es);
      var after := WriteBack(scanned[v], slots, blocks);
      ClaimedInv(RemoveAt(scanned, v), bmap, slots, after, scanned[v].bufpos)
      && forall s :: 0 <= s < |blocks| ==> ViewOf(RemoveAt(scanned, v), slots, after, s) == ViewOf(es, slots, blocks, s)
  {
    AllSetIff(bmap);
    var scanned := AfterScan(es);
    var v := Victim(es);
    SameKeysView(es, scanned, slots, blocks);
    RemoveView(scanned, slots, blocks, v);
    EvictFrees(es, sector);
  }

  /** The entries left after eviction neither use the victim's slot nor
      hold a sector that was not cached before. */
  lemma EvictFrees(es: seq<Entry>, sector: nat)
    requires |es| > 0 && Distinct(es) && SlotOf(es, sector) == -1
    ensures var scanned := AfterScan(es);
      var rest := RemoveAt(scanned, Victim(es));
      SlotOf(rest, sector) == -1
      && forall i :: 0 <= i < |rest| ==> rest[i].bufpos != scanned[Victim(es)].bufpos
  {
    var scanned := AfterScan(es);
    var v := Victim(es);
    var rest := RemoveAt(scanned, v);
    SlotOfNone(es, sector);
    forall i | 0 <= i < |rest| ensures rest[i].bufpos != scanned[v].bufpos && rest[i].sector != sector {
      assert rest[i] == scanned[if i < v then i else i + 1];
    }
    SlotOfNone(rest, sector);
  }

  /** Claiming the lowest free slot keeps the entries as they are. */
  lemma FreeClaims(es: seq<Entry>, bmap: seq<bool>, slots: seq<seq<byte>>, blocks: seq<seq<byte>>, pos: int)
    requires Inv(es, bmap, slots, blocks) && FirstFree(bmap) == pos && pos >= 0
    ensures ClaimedInv(es, bmap[pos := true], slots, blocks, pos)
  {
    CountSet(bmap, pos, true);
  }

  /** Changing entry i's ref or dirty bit (never cleaning a dirty one)
      keeps Inv and changes what no reader sees. */
  lemma MarkInv(es: seq<Entry>, bmap: seq<bool>, slots: seq<seq<byte>>, blocks: seq<seq<byte>>, i: nat, e: Entry)
    requires Inv(es, bmap, slots, blocks) && i < |es|
    requires e.sector == es[i].sector && e.bufpos == es[i].bufpos && (es[i].dirty ==> e.dirty)
    ensures Inv(es[i := e], bmap, slots, blocks)
    ensures forall s :: 0 <= s < |blocks| ==> ViewOf(es[i := e], slots, blocks, s) == ViewOf(es, slots, blocks, s)
  {
    SameKeysView(es, es[i := e], slots, blocks);
  }

  /** Storing a full sector into the buffer of a dirty entry keeps Inv. */
  lemma StoreInv(es: seq<Entry>, bmap: seq<bool>, slots: seq<seq<byte>>, blocks: seq<seq<byte>>, i: nat, data: seq<byte>)
    requires Inv(es, bmap, slots, blocks) && i < |es| && es[i].dirty && |data| == BLOCK_SECTOR_SIZE
    ensures Inv(es, bmap, slots[es[i].bufpos := data], blocks)
  {
  }

  /** cache_delete and cache_writeback on entry i: clearing its bit and
      writing it back when dirty keeps Inv, uncaches its sector and
      changes what no reader sees. */
  lemma DropInv(es: seq<Entry>, bmap: seq<bool>, slots: seq<seq<byte>>, blocks: seq<seq<byte>>, i: nat)
    requires Inv(es, bmap, slots, blocks) && i < |es|
    ensures Inv(RemoveAt(es, i), bmap[es[i].bufpos := false], slots, WriteBack(es[i], slots, blocks))
    ensures SlotOf(RemoveAt(es, i), es[i].sector) == -1
    ensures forall s :: 0 <= s < |blocks| ==>
              ViewOf(RemoveAt(es, i), slots, WriteBack(es[i], slots, blocks), s) == ViewOf(es, slots, blocks, s)
  {
    var rest := RemoveAt(es, i);
    RemoveView(es, slots, blocks, i);
    CountSet(bmap, es[i].bufpos, false);
    forall j | 0 <= j < |rest| ensures rest[j].bufpos != es[i].bufpos && rest[j].sector != es[i].sector {
      assert rest[j] == es[if j < i then j else j + 1];
    }
    SlotOfNone(rest, es[i].sector);
  }

  /** The flusher on entry i: writing its buffer to the device and marking
      it clean keeps Inv and changes what no reader sees. */
  lemma FlushInv(es: seq<Entry>, bmap: seq<bool>, slots: seq<seq<byte>>, blocks: seq<seq<byte>>, i: nat)
    requires Inv(es, bmap, slots, blocks) && i < |es|
    ensures var blocks' := blocks[es[i].sector := slots[es[i].bufpos]];
      Inv(es[i := es[i].(dirty := false)], bmap, slots, blocks')
      && forall s :: 0 <= s < |blocks| ==>
           ViewOf(es[i := es[i].(dirty := false)], slots, blocks', s) == ViewOf(es, slots, blocks, s)
  {
    var blocks' := blocks[es[i].sector := slots[es[i].bufpos]];
    FlushView(es, slots, blocks, i);
    SameKeysView(es, es[i := es[i].(dirty := false)], slots, blocks');
  }

  /** The entries once a flush pass has cleaned the first n of them. */
  function Cleaned(es: seq<Entry>, n: nat): (r: seq<Entry>)
    requires n <= |es|
    ensures |r| == |es|
    ensures forall i :: 0 <= i < |es| ==> r[i] == if i < n then es[i].(dirty := false) else es[i]
  {
    seq(|es|, i requires 0 <= i < |es| => if i < n then es[i].(dirty := false) else es[i])
  }

  class BufferCache {
    /** fs_device. */
    const dev: Device
    /** cache_list, in list order. */
    var entries: seq<Entry>
    /** cache_bmap: which buffer slots are in use. */
    var bmap: seq<bool>
    /** buffer_cache: MAX_CACHE_SIZE buffers of one sector each. */
    var slots: seq<seq<byte>>
    /** ahead_sector: the sector queued for read-ahead, UINT32_MAX if none. */
    var ahead: u32
    /** cache_runbit: whether the flusher keeps running. */
    var running: bool

    ghost predicate Valid()
      reads this, dev
    {
      Inv(entries, bmap, slots, dev.blocks)
    }

    /** What a reader of sector s sees through the cache. */
    ghost function View(s: nat): seq<byte>
      reads this, dev
      requires s < |dev.blocks|
    {
      ViewOf(entries, slots, dev.blocks, s)
    }

    /** cache_init: no entries, every slot free, no read-ahead pending. */
    constructor Init(d: Device)
      requires d.Valid()
      ensures Valid() && dev == d && entries == [] && ahead == SENTINEL && running
      ensures forall p :: 0 <= p < MAX_CACHE_SIZE ==> !bmap[p]
      ensures forall s :: 0 <= s < |dev.blocks| ==> View(s) == dev.blocks[s]
    {
      dev := d;
      entries := [];
      bmap := seq(MAX_CACHE_SIZE, _ => false);
      slots := seq(MAX_CACHE_SIZE, _ => Zeros(BLOCK_SECTOR_SIZE));
      ahead := SENTINEL;
      running := true;
      CountAllClear(MAX_CACHE_SIZE);
    }

    /** scan_cache: the position of sector's entry in cache_list, or -1. */
    method Scan(sector: nat) returns (i: int)
      requires Valid()
      ensures -1 <= i < |entries|
      ensures i == -1 <==> SlotOf(entries, sector) == -1
      ensures i >= 0 ==> entries[i].sector == sector
    {
      i := 0;
      while i < |entries|
        invariant 0 <= i <= |entries|
        invariant forall j :: 0 <= j < i ==> entries[j].sector != sector
      {
        if entries[i].sector == sector {
          SlotOfEntry(entries, i);
          return;
        }
        i := i + 1;
      }
      SlotOfNone(entries, sector);
      i := -1;
    }

    /** evict_cache: called with every slot in use; scans from the head of
        cache_list, clearing ref bits, wrapping to the head at the end, and
        removes the first entry found without one, writing it to the device
        first when it is dirty. Returns the removed entry, whose slot the
        caller reuses. */
    method Evict() returns (victim: Entry)
      requires Valid() && |entries| == MAX_CACHE_SIZE
      modifies this, dev
      ensures victim == AfterScan(old(entries))[Victim(old(entries))]
      ensures entries == RemoveAt(AfterScan(old(entries)), Victim(old(entries)))
      ensures bmap == old(bmap) && slots == old(slots) && ahead == old(ahead) && running == old(running)
      ensures victim.sector < |old(dev.blocks)| && victim.bufpos < |slots|
      ensures dev.blocks == if victim.dirty then old(dev.blocks)[victim.sector := slots[victim.bufpos]]
                            else old(dev.blocks)
    {
      ghost var start := entries;
      var e := 0;
      while true
        invariant 0 <= e <= |start| && |entries| == |start|
        invariant forall j :: 0 <= j < e ==> start[j].ref
        invariant entries == ClearRefs(start, e)
        invariant bmap == old(bmap) && slots == old(slots) && ahead == old(ahead) && running == old(running)
        invariant dev.blocks == old(dev.blocks)
        decreases |start| - e
      {
        if e == |entries| {
          e := 0;
          assert FirstUnreferenced(start) == -1;
          break;
        }
        if entries[e].ref {
          entries := entries[e := entries[e].(ref := false)];
          e := e + 1;
        } else {
          assert FirstUnreferenced(start) == e;
          break;
        }
      }
      victim := entries[e];
      assert entries == AfterScan(start) && e == Victim(start);
      entries := RemoveAt(entries, e);
      if victim.dirty {
        dev.blocks := dev.blocks[victim.sector := slots[victim.bufpos]];
      }
    }

    /** Valid() except that slot bp is claimed in cache_bmap and not yet
        used by any entry. */
    ghost predicate Claimed(bp: nat)
      reads this, dev
    {
      ClaimedInv(entries, bmap, slots, dev.blocks, bp)
    }

    /** The first half of allocate_cache: bitmap_scan_and_flip for the
        lowest free slot, or evict_cache when there is none. */
    method ClaimSlot(ghost sector: nat) returns (bp: nat)
      requires Valid() && SlotOf(entries, sector) == -1
      modifies this, dev
      ensures Claimed(bp) && |dev.blocks| == |old(dev.blocks)| && SlotOf(entries, sector) == -1
      ensures slots == old(slots) && ahead == old(ahead) && running == old(running)
      ensures entries == if |old(entries)| < MAX_CACHE_SIZE then old(entries)
                         else RemoveAt(AfterScan(old(entries)), Victim(old(entries)))
      ensures forall s :: 0 <= s < |dev.blocks| ==> ViewOf(entries, slots, dev.blocks, s) == old(View(s))
    {
      var pos := FirstFree(bmap);
      if pos == -1 {
        EvictClaims(entries, bmap, slots, dev.blocks, sector);
        var victim := Evict();
        bp := victim.bufpos;
      } else {
        FreeClaims(entries, bmap, slots, dev.blocks, pos);
        bmap := bmap[pos := true];
        bp := pos;
      }
    }

    /** allocate_cache, called on a miss: claims a slot, loads the sector
        from the device into it as a clean, unreferenced entry at the tail
        of cache_list, then asks for read-ahead of next. No reader sees a
        difference. */
    method Allocate(sector: nat, next: u32) returns (i: nat)
      requires Valid() && sector < |dev.blocks| && SlotOf(entries, sector) == -1
      modifies this, dev
      ensures Valid() && |dev.blocks| == |old(dev.blocks)| && ahead == old(ahead) && running == old(running)
      ensures i == |entries| - 1 && entries[i] == Entry(sector, entries[i].bufpos, false, false)
      ensures entries[..i] == if |old(entries)| < MAX_CACHE_SIZE then old(entries)
                              else RemoveAt(AfterScan(old(entries)), Victim(old(entries)))
      ensures slots[entries[i].bufpos] == dev.blocks[sector]
      ensures forall s :: 0 <= s < |dev.blocks| ==> View(s) == old(View(s))
    {
      var bp := ClaimSlot(sector);
      AppendInv(entries, bmap, slots, dev.blocks, bp, sector);
      slots := slots[bp := dev.blocks[sector]];
      entries := entries + [Entry(sector, bp, false, false)];
      i := |entries| - 1;
      assert entries[..i] == old(entries) || |old(entries)| == MAX_CACHE_SIZE;
      var started := Install(next);
    }

    /** cache_install: returns at once when sector is UINT32_MAX; otherwise
        returns unless ahead_sector is UINT32_MAX and equal to sector, which
        cannot both hold, so no read-ahead is ever started: started says
        whether the guard let the call through to recording ahead_sector and
        creating the fetch_block thread, which it never does. */
    method Install(sector: u32) returns (started: bool)
      ensures !started
    {
      started := sector != SENTINEL && !(ahead != SENTINEL || sector != ahead);
    }

    /** The lookup shared by cache_read and cache_write: scan_cache, then
        allocate_cache on a miss. */
    method Lookup(sector: nat, next: u32) returns (i: nat)
      requires Valid() && sector < |dev.blocks|
      modifies this, dev
      ensures Valid() && |dev.blocks| == |old(dev.blocks)| && ahead == old(ahead) && running == old(running)
      ensures i < |entries| && entries[i].sector == sector
      ensures forall s :: 0 <= s < |dev.blocks| ==> View(s) == old(View(s))
    {
      var j := Scan(sector);
      if j == -1 {
        i := Allocate(sector, next);
      } else {
        i := j;
      }
    }

    /** Replaces entry i by e, which differs only in its ref and dirty
        bits and is not cleaner. */
    method Mark(i: nat, e: Entry)
      requires Valid() && i < |entries|
      requires e.sector == entries[i].sector && e.bufpos == entries[i].bufpos && (entries[i].dirty ==> e.dirty)
      modifies this
      ensures Valid() && entries == old(entries)[i := e]
      ensures bmap == old(bmap) && slots == old(slots) && ahead == old(ahead) && running == old(running)
      ensures forall s :: 0 <= s < |dev.blocks| ==> View(s) == old(View(s))
    {
      MarkInv(entries, bmap, slots, dev.blocks, i, e);
      entries := entries[i := e];
    }

    /** cache_read: finds sector's entry (loading it on a miss), marks it
        referenced and copies size bytes from offset ofs of its buffer. The
        bytes are those a reader sees, and no reader sees a difference. */
    method Read(sector: nat, ofs: nat, size: nat, next: u32) returns (buf: seq<byte>)
      requires Valid() && sector < |dev.blocks| && ofs + size <= BLOCK_SECTOR_SIZE
      modifies this, dev
      ensures Valid() && |dev.blocks| == |old(dev.blocks)| && ahead == old(ahead)
      ensures buf == old(View(sector))[ofs..ofs + size]
      ensures forall s :: 0 <= s < |dev.blocks| ==> View(s) == old(View(s))
      ensures forall i :: 0 <= i < |entries| && entries[i].sector == sector ==> entries[i].ref
    {
      var i := Lookup(sector, next);
      Mark(i, entries[i].(ref := true));
      SlotOfEntry(entries, i);
      buf := slots[entries[i].bufpos][ofs..ofs + size];
    }

    /** cache_write: finds sector's entry (loading it on a miss), marks it
        dirty and referenced and stores data at offset ofs of its buffer.
        Readers of sector then see data spliced into what they saw before;
        readers of any other sector see no difference. */
    method Write(sector: nat, ofs: nat, data: seq<byte>, next: u32)
      requires Valid() && sector < |dev.blocks| && ofs + |data| <= BLOCK_SECTOR_SIZE
      modifies this, dev
      ensures Valid() && |dev.blocks| == |old(dev.blocks)| && ahead == old(ahead)
      ensures View(sector) == old(View(sector))[..ofs] + data + old(View(sector))[ofs + |data|..]
      ensures forall s :: 0 <= s < |dev.blocks| && s != sector ==> View(s) == old(View(s))
      ensures forall i :: 0 <= i < |entries| && entries[i].sector == sector ==> entries[i].dirty && entries[i].ref
    {
      var i := Lookup(sector, next);
      Mark(i, entries[i].(dirty := true, ref := true));
      var bp := entries[i].bufpos;
      SlotOfEntry(entries, i);
      var buffer := slots[bp][..ofs] + data + slots[bp][ofs + |data|..];
      StoreInv(entries, bmap, slots, dev.blocks, i, buffer);
      StoreView(entries, slots, dev.blocks, i, buffer);
      slots := slots[bp := buffer];
    }

    /** The body shared by cache_delete and cache_writeback: frees entry
        i's slot in cache_bmap, writes its buffer to the device when it is
        dirty and unlinks it. */
    method Drop(i: nat)
      requires Valid() && i < |entries|
      modifies this, dev
      ensures Valid() && |dev.blocks| == |old(dev.blocks)| && ahead == old(ahead) && slots == old(slots)
      ensures running == old(running)
      ensures entries == RemoveAt(old(entries), i)
      ensures bmap == old(bmap)[old(entries)[i].bufpos := false]
      ensures dev.blocks == WriteBack(old(entries)[i], slots, old(dev.blocks))
      ensures SlotOf(entries, old(entries)[i].sector) == -1
      ensures forall s :: 0 <= s < |dev.blocks| ==> View(s) == old(View(s))
    {
      var e := entries[i];
      DropInv(entries, bmap, slots, dev.blocks, i);
      bmap := bmap[e.bufpos := false];
      if e.dirty {
        dev.blocks := dev.blocks[e.sector := slots[e.bufpos]];
      }
      entries := RemoveAt(entries, i);
    }

    /** cache_delete: when sector is cached, writes it behind and drops its
        entry; the device then holds what readers saw, and they still do. */
    method Delete(sector: nat)
      requires Valid() && sector < |dev.blocks|
      modifies this, dev
      ensures Valid() && |dev.blocks| == |old(dev.blocks)| && ahead == old(ahead)
      ensures forall s :: 0 <= s < |dev.blocks| ==> View(s) == old(View(s))
      ensures SlotOf(entries, sector) == -1 && dev.blocks[sector] == View(sector)
      ensures SlotOf(old(entries), sector) == -1 ==> entries == old(entries) && dev.blocks == old(dev.blocks)
    {
      var i := Scan(sector);
      assert entries == old(entries) && slots == old(slots) && dev.blocks == old(dev.blocks);
      forall s | 0 <= s < |dev.blocks|
        ensures View(s) == old(View(s))
      {
      }
      if i >= 0 {
        Drop(i);
      }
      UncachedView(entries, slots, dev.blocks, sector);
    }

    /** cache_writeback: stops the flusher and drops every entry from the
        head of cache_list, writing the dirty ones behind. Afterwards the
        cache is empty and the device holds what every reader saw. */
    method Writeback()
      requires Valid()
      modifies this, dev
      ensures Valid() && |dev.blocks| == |old(dev.blocks)| && ahead == old(ahead) && !running
      ensures entries == [] && forall p :: 0 <= p < MAX_CACHE_SIZE ==> !bmap[p]
      ensures forall s :: 0 <= s < |dev.blocks| ==> dev.blocks[s] == old(View(s))
    {
      running := false;
      while entries != []
        invariant Valid() && |dev.blocks| == |old(dev.blocks)| && ahead == old(ahead) && !running
        invariant forall s :: 0 <= s < |dev.blocks| ==> View(s) == old(View(s))
        decreases |entries|
      {
        Drop(0);
      }
      NoneSetIff(bmap);
    }

    /** One pass of flush_cache over cache_list: writes every dirty entry
        to the device and marks it clean. Afterwards no entry is dirty,
        the device holds what every reader saw, and they still see it. */
    method FlushPass()
      requires Valid()
      modifies this, dev
      ensures Valid() && bmap == old(bmap) && slots == old(slots) && ahead == old(ahead)
      ensures entries == Cleaned(old(entries), |old(entries)|)
      ensures |dev.blocks| == |old(dev.blocks)|
      ensures forall s :: 0 <= s < |dev.blocks| ==> dev.blocks[s] == old(View(s)) && View(s) == old(View(s))
    {
      var k := 0;
      while k < |entries|
        invariant 0 <= k <= |entries| == |old(entries)|
        invariant Valid() && bmap == old(bmap) && slots == old(slots) && ahead == old(ahead)
        invariant entries == Cleaned(old(entries), k)
        invariant |dev.blocks| == |old(dev.blocks)|
        invariant forall s :: 0 <= s < |dev.blocks| ==> View(s) == old(View(s))
      {
        if entries[k].dirty {
          FlushInv(entries, bmap, slots, dev.blocks, k);
          dev.blocks := dev.blocks[entries[k].sector := slots[entries[k].bufpos]];
          entries := entries[k := entries[k].(dirty := false)];
        }
        k := k + 1;
      }
      CleanView(entries, bmap, slots, dev.blocks);
    }
  }
}
