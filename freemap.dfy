/** The free-space allocator of src/filesys/free-map.c: one bit per sector of
    the file-system device, set when the sector is in use. */
module FreeMap {
  import opened Bytes
  import opened Options
  import opened Bitmap

  /** Well-known sectors (from filesys.h, which is not part of this model). */
  const FREE_MAP_SECTOR: nat := 0
  const ROOT_DIR_SECTOR: nat := 1

  /** The sectors that cnt successive first-fit allocations return. */
  function TakeFree(bits: seq<bool>, cnt: nat): (r: seq<nat>)
    requires cnt <= |bits| - Count(bits)
    ensures |r| == cnt
    ensures forall k :: 0 <= k < cnt ==> r[k] < |bits|
    decreases cnt
  {
    if cnt == 0 then []
    else
      var f := FirstFree(bits);
      CountFreeExists(bits);
      CountSet(bits, f, true);
      [f] + TakeFree(bits[f := true], cnt - 1)
  }

  /** bits with the given sectors set. */
  function MarkAll(bits: seq<bool>, ss: seq<nat>): (r: seq<bool>)
    ensures |r| == |bits|
    decreases |ss|
  {
    if ss == [] then bits
    else MarkAll(if ss[0] < |bits| then bits[ss[0] := true] else bits, ss[1..])
  }

  /** Every sector TakeFree hands out was clear in bits, is in range, and
      the sectors come out strictly increasing, so they are distinct. */
  lemma {:induction false} TakeFreeFresh(bits: seq<bool>, cnt: nat)
    requires cnt <= |bits| - Count(bits)
    ensures forall k :: 0 <= k < cnt ==> TakeFree(bits, cnt)[k] < |bits| && !bits[TakeFree(bits, cnt)[k]]
    ensures forall k, l :: 0 <= k < l < cnt ==> TakeFree(bits, cnt)[k] < TakeFree(bits, cnt)[l]
    ensures Count(MarkAll(bits, TakeFree(bits, cnt))) == Count(bits) + cnt
    decreases cnt
  {
    if cnt > 0 {
      var f := FirstFree(bits);
      CountFreeExists(bits);
      CountSet(bits, f, true);
      var rest := bits[f := true];
      TakeFreeFresh(rest, cnt - 1);
      var t := TakeFree(bits, cnt);
      assert t == [f] + TakeFree(rest, cnt - 1);
      forall k | 1 <= k < cnt ensures f < t[k] {
        var s := t[k];
        assert s < |rest| && !rest[s];
        assert s != f && !bits[s];
      }
      assert MarkAll(bits, t) == MarkAll(rest, TakeFree(rest, cnt - 1));
    }
  }

  /** The bitmap that the as-written failure path of
      free_map_allocate_multiple leaves behind, where C gives it a meaning.
      Its loop resets sectors[0..i] inclusive, where sectors[i] was never
      assigned and holds whatever malloc left there (stale), but it frees
      the array inside the loop: when the failure comes at i = 0 (taken is
      empty) its one pass resets the stale slot; when sectors were taken,
      every pass after the first reads and frees the freed array again,
      which C leaves undefined (None). */
  function RollbackAsWritten(bits: seq<bool>, taken: seq<nat>, stale: nat): (r: Option<seq<bool>>)
    requires stale < |bits|
    ensures r.Some? <==> taken == []
    ensures r.Some? ==> |r.value| == |bits| && !r.value[stale]
                        && forall s :: 0 <= s < |bits| && s != stale ==> r.value[s] == bits[s]
  {
    if taken == [] then Some(bits[stale := false]) else None
  }

  /** On a full map free_map_allocate (1, &s) fails at i = 0, and with a
      zeroed array the stale slot its rollback resets as written names
      sector 0: the free map's own inode sector is marked free, one sector
      fewer is counted in use, and the next allocation hands sector 0 out
      to a file. */
  lemma RollbackFreesFreeMapSector(bits: seq<bool>)
    requires |bits| >= 2 && FirstFree(bits) == -1
    ensures var r := RollbackAsWritten(bits, TakeFree(bits, |bits| - Count(bits)), FREE_MAP_SECTOR);
            r.Some? && !r.value[FREE_MAP_SECTOR] && r.value != bits
            && Count(r.value) == |bits| - 1 && FirstFree(r.value) == FREE_MAP_SECTOR
  {
    FirstFreeNone(bits);
    var r := RollbackAsWritten(bits, [], FREE_MAP_SECTOR);
    assert r.value == bits[FREE_MAP_SECTOR := false];
    CountSet(bits, FREE_MAP_SECTOR, false);
    assert r.value != bits by {
      assert r.value[FREE_MAP_SECTOR] != bits[FREE_MAP_SECTOR];
    }
  }

  class FreeMap {
    /** One bit per device sector; true means in use. */
    var bits: seq<bool>
    /** Sectors handed out and handed back since initialisation (bookkeeping only). */
    ghost var handedOut: nat
    ghost var handedBack: nat

    /** The allocator's invariant: the device is addressable by block_sector_t
        without reaching the sentinel, and the set bits are the two reserved
        sectors plus what was allocated and not yet released. */
    ghost predicate Valid()
      reads this
    {
      2 <= |bits| <= SENTINEL
      && Count(bits) + handedBack == 2 + handedOut
    }

    /** free_map_init: a bitmap with one clear bit per sector, then the
        free-map and root-directory sectors marked. */
    constructor Init(size: nat)
      requires 2 <= size <= SENTINEL
      ensures Valid()
      ensures |bits| == size
      ensures forall s :: 0 <= s < size ==> (bits[s] <==> s == FREE_MAP_SECTOR || s == ROOT_DIR_SECTOR)
      ensures handedOut == 0 && handedBack == 0
    {
      var b := seq(size, _ => false);
      CountAllClear(size);
      CountSet(b, FREE_MAP_SECTOR, true);
      CountSet(b[FREE_MAP_SECTOR := true], ROOT_DIR_SECTOR, true);
      bits := b[FREE_MAP_SECTOR := true][ROOT_DIR_SECTOR := true];
      handedOut, handedBack := 0, 0;
    }

    /** bitmap_scan_and_flip (free_map, 0, 1, false). */
    method ScanAndFlip() returns (s: int)
      requires Valid()
      modifies this
      ensures s == FirstFree(old(bits))
      ensures s >= 0 ==> bits == old(bits)[s := true] && handedOut == old(handedOut) + 1
      ensures s == -1 ==> bits == old(bits) && handedOut == old(handedOut)
      ensures handedBack == old(handedBack) && Valid()
    {
      s := FirstFree(bits);
      if s >= 0 {
        CountSet(bits, s, true);
        bits := bits[s := true];
        handedOut := handedOut + 1;
      }
    }

    /** The loop of free_map_allocate_multiple: up to cnt first-fit scans,
        stopping at the first that finds no free sector. It succeeds when
        cnt sectors were free, and has then taken the cnt lowest; otherwise
        it has taken every free sector. */
    method ScanLoop(cnt: nat) returns (sectors: seq<nat>, success: bool)
      requires Valid() && cnt > 0
      modifies this
      ensures Valid() && |bits| == |old(bits)| && handedBack == old(handedBack)
      ensures success <==> cnt <= |old(bits)| - Count(old(bits))
      ensures sectors == TakeFree(old(bits), if success then cnt else |old(bits)| - Count(old(bits)))
      ensures bits == MarkAll(old(bits), sectors)
    {
      ghost var b0 := bits;
      sectors := [];
      var i := 0;
      success := true;
      while i < cnt
        invariant 0 <= i <= cnt && |sectors| == i && |bits| == |b0|
        invariant Valid()
        invariant i <= |b0| - Count(b0)
        invariant sectors == TakeFree(b0, i)
        invariant bits == MarkAll(b0, sectors)
        invariant Count(bits) == Count(b0) + i
        invariant success
        invariant handedBack == old(handedBack)
      {
        ghost var before := bits;
        var s := ScanAndFlip();
        if s == -1 {
          success := false;
          break;
        }
        AllSetIff(before);
        TakeFreeStep(b0, i);
        sectors := sectors + [s];
        i := i + 1;
      }
      if !success {
        FirstFreeNone(bits);
        assert Count(bits) == |bits|;
      }
    }

    /** free_map_allocate_multiple with the rollback fixed: on failure it
        resets exactly the bits it set, so the bitmap is as before. On
        success it returns the cnt lowest free sectors, lowest first, and
        they are now in use. */
    method AllocateMultiple(cnt: nat) returns (r: Option<seq<nat>>)
      requires Valid()
      modifies this
      ensures Valid() && |bits| == |old(bits)|
      ensures cnt == 0 ==> r == None && bits == old(bits)
      ensures cnt > 0 && cnt <= |old(bits)| - Count(old(bits)) ==>
                r == Some(TakeFree(old(bits), cnt)) && bits == MarkAll(old(bits), r.value)
      ensures cnt > |old(bits)| - Count(old(bits)) ==> r == None && bits == old(bits)
    {
      if cnt == 0 { return None; }
      ghost var b0 := bits;
      var sectors, success := ScanLoop(cnt);
      if !success {
        TakeFreeFresh(b0, |sectors|);
        Rollback(b0, sectors);
        return None;
      }
      r := Some(sectors);
    }

    /** The fixed rollback: reset each sector this call set, lowest first. */
    method Rollback(ghost b0: seq<bool>, sectors: seq<nat>)
      requires Valid() && |bits| == |b0|
      requires forall k :: 0 <= k < |sectors| ==> sectors[k] < |b0| && !b0[sectors[k]]
      requires forall k, l :: 0 <= k < l < |sectors| ==> sectors[k] < sectors[l]
      requires bits == MarkAll(b0, sectors)
      modifies this
      ensures Valid() && bits == b0 && handedOut == old(handedOut)
    {
      var j := 0;
      while j < |sectors|
        invariant 0 <= j <= |sectors| && |bits| == |b0|
        invariant bits == MarkAll(b0, sectors[j..])
        invariant Valid() && handedOut == old(handedOut)
      {
        MarkAllAt(b0, sectors[j..]);
        MarkAllAt(b0, sectors[j + 1..]);
        assert sectors[j..] == [sectors[j]] + sectors[j + 1..];
        CountSet(bits, sectors[j], false);
        bits := bits[sectors[j] := false];
        handedBack := handedBack + 1;
        j := j + 1;
      }
      MarkAllAt(b0, []);
    }

    /** free_map_allocate_multiple as written. On failure at i = 0 (no
        sector was free) its rollback resets the stale slot sectors[0]
        (RollbackAsWritten). On a failure after sectors were taken, its
        first pass resets sectors[0] and frees the array, and the later
        passes read and free the freed array: only that first pass is
        promised, and the model stops there. */
    method AllocateMultipleAsWritten(cnt: nat, stale: nat) returns (r: Option<seq<nat>>)
      requires Valid() && stale < |bits|
      modifies this
      ensures |bits| == |old(bits)|
      ensures cnt == 0 ==> r == None && bits == old(bits)
      ensures cnt > 0 && cnt <= |old(bits)| - Count(old(bits)) ==>
                r == Some(TakeFree(old(bits), cnt)) && bits == MarkAll(old(bits), r.value)
      ensures cnt > 0 && Count(old(bits)) == |old(bits)| ==>
                r == None && Some(bits) == RollbackAsWritten(old(bits), [], stale)
      ensures cnt > |old(bits)| - Count(old(bits)) > 0 ==>
                var t := TakeFree(old(bits), |old(bits)| - Count(old(bits)));
                r == None && RollbackAsWritten(MarkAll(old(bits), t), t, stale) == None && !bits[t[0]]
    {
      if cnt == 0 { return None; }
      var sectors, success := ScanLoop(cnt);
      if !success {
        if sectors == [] {
          bits := bits[stale := false];
        } else {
          bits := bits[sectors[0] := false];
        }
        return None;
      }
      r := Some(sectors);
    }

    /** free_map_allocate: one sector, or SENTINEL (-1 as block_sector_t)
        when none is free. Callers' "free_map_allocate (1, &s)" is this
        call followed by the test s != SENTINEL. */
    method Allocate() returns (s: u32)
      requires Valid()
      modifies this
      ensures Valid() && |bits| == |old(bits)|
      ensures s == SENTINEL <==> forall j :: 0 <= j < |old(bits)| ==> old(bits)[j]
      ensures s != SENTINEL ==> s == FirstFree(old(bits)) && bits == old(bits)[s := true]
      ensures s == SENTINEL ==> bits == old(bits)
    {
      var r := AllocateMultiple(1);
      if r.Some? {
        s := r.value[0];
        assert TakeFree(old(bits), 1) == [FirstFree(old(bits))];
        assert MarkAll(old(bits), [s]) == MarkAll(old(bits)[s := true], []);
      } else {
        s := SENTINEL;
        assert Count(old(bits)) == |old(bits)|;
        AllSetIff(old(bits));
      }
    }

    /** free_map_release: the bit must be set; it is cleared and nothing else changes. */
    method Release(s: nat)
      requires Valid() && s < |bits| && bits[s]
      modifies this
      ensures Valid()
      ensures bits == old(bits)[s := false]
      ensures handedOut == old(handedOut) && handedBack == old(handedBack) + 1
    {
      CountSet(bits, s, false);
      bits := bits[s := false];
      handedBack := handedBack + 1;
    }

    /** free_map_inuse. */
    function InUse(s: nat): bool
      reads this
      requires s < |bits|
    {
      bits[s]
    }
  }

  /** Bit x of MarkAll (b, ss) is set when it was set in b or x is one of ss. */
  lemma {:induction false} MarkAllAt(b: seq<bool>, ss: seq<nat>)
    requires forall k :: 0 <= k < |ss| ==> ss[k] < |b|
    ensures forall x :: 0 <= x < |b| ==> MarkAll(b, ss)[x] == (b[x] || x in ss)
    decreases |ss|
  {
    if ss != [] {
      MarkAllAt(b[ss[0] := true], ss[1..]);
      forall x | 0 <= x < |b| ensures MarkAll(b, ss)[x] == (b[x] || x in ss) {
        assert x in ss <==> x == ss[0] || x in ss[1..];
      }
    }
  }

  /** One more first-fit allocation extends TakeFree by one. */
  lemma {:induction false} TakeFreeStep(bits: seq<bool>, i: nat)
    requires i < |bits| - Count(bits)
    ensures FirstFree(MarkAll(bits, TakeFree(bits, i))) >= 0
    ensures TakeFree(bits, i + 1) == TakeFree(bits, i) + [FirstFree(MarkAll(bits, TakeFree(bits, i)))]
    ensures MarkAll(bits, TakeFree(bits, i + 1)) == MarkAll(bits, TakeFree(bits, i))[FirstFree(MarkAll(bits, TakeFree(bits, i))) := true]
    decreases i
  {
    var f := FirstFree(bits);
    CountFreeExists(bits);
    CountSet(bits, f, true);
    if i > 0 {
      TakeFreeStep(bits[f := true], i - 1);
    } else {
      AllSetIff(bits);
    }
  }
}
