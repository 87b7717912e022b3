/** src/userprog/mmap.c: the process's list of memory-mapped files and the
    write-back of a mapping's dirty pages. */
module Mmap {
  import opened Options

  const PGSIZE: nat := 4096

  /** An open file (struct file *), identified by its address. */
  type File = nat

  datatype Mapping = Mapping(mapid: int, file: File, addr: nat)

  /** What the supplemental page table records for a page: how many bytes of
      the file back it and at which file offset. */
  datatype PageInfo = PageInfo(readbyte: nat, offset: nat)

  /** One file_write_at issued by the write-back: to file, from the page at
      addr, size bytes at file offset offset. */
  datatype PageWrite = PageWrite(file: File, addr: nat, size: nat, offset: nat)

  /** The id the next mmap_allocate hands out. */
  function NextMapId(ms: seq<Mapping>): int
  {
    if ms == [] then 0 else ms[|ms| - 1].mapid + 1
  }

  ghost predicate Increasing(ms: seq<Mapping>)
  {
    forall i, j :: 0 <= i < j < |ms| ==> ms[i].mapid < ms[j].mapid
  }

  /** The pages mmap_writeback visits for a file of fsize bytes mapped at
      addr: one per started page of the file. */
  function PageCount(fsize: int): (n: nat)
    ensures fsize <= 0 ==> n == 0
    ensures fsize > 0 ==> (n - 1) * PGSIZE < fsize <= n * PGSIZE
    decreases fsize
  {
    if fsize <= 0 then 0 else 1 + PageCount(fsize - PGSIZE)
  }

  /** The writes mmap_writeback issues, page by page: a page is written
      back only when it is present and dirty in the page directory. */
  function Writes(file: File, addr: nat, fsize: int, present: nat -> bool, dirty: nat -> bool,
                  spage: nat -> PageInfo): seq<PageWrite>
    decreases fsize
  {
    if fsize <= 0 then []
    else
      (if present(addr) && dirty(addr) then [PageWrite(file, addr, spage(addr).readbyte, spage(addr).offset)] else [])
      + Writes(file, addr + PGSIZE, fsize - PGSIZE, present, dirty, spage)
  }

  /** Every write-back targets one of the visited pages and only a present,
      dirty one. */
  lemma {:induction false} WritesOnlyDirtyPages(file: File, addr: nat, fsize: int, present: nat -> bool,
                                                dirty: nat -> bool, spage: nat -> PageInfo)
    ensures forall w :: w in Writes(file, addr, fsize, present, dirty, spage) ==>
              present(w.addr) && dirty(w.addr) && w.addr >= addr
              && (w.addr - addr) % PGSIZE == 0 && (w.addr - addr) / PGSIZE < PageCount(fsize)
              && w == PageWrite(file, w.addr, spage(w.addr).readbyte, spage(w.addr).offset)
    decreases fsize
  {
    if fsize > 0 {
      WritesOnlyDirtyPages(file, addr + PGSIZE, fsize - PGSIZE, present, dirty, spage);
      forall w | w in Writes(file, addr + PGSIZE, fsize - PGSIZE, present, dirty, spage)
        ensures (w.addr - addr) % PGSIZE == 0 && (w.addr - addr) / PGSIZE < PageCount(fsize)
      {
        var q := (w.addr - (addr + PGSIZE)) / PGSIZE;
        assert w.addr - (addr + PGSIZE) == q * PGSIZE;
        assert w.addr - addr == (q + 1) * PGSIZE;
      }
    }
  }

  /** Every present, dirty page among the visited ones is written back. */
  lemma {:induction false} DirtyPagesWritten(file: File, addr: nat, fsize: int, k: nat, present: nat -> bool,
                                             dirty: nat -> bool, spage: nat -> PageInfo)
    requires k < PageCount(fsize)
    requires present(addr + k * PGSIZE) && dirty(addr + k * PGSIZE)
    ensures PageWrite(file, addr + k * PGSIZE, spage(addr + k * PGSIZE).readbyte, spage(addr + k * PGSIZE).offset)
              in Writes(file, addr, fsize, present, dirty, spage)
    decreases fsize
  {
    var rest := Writes(file, addr + PGSIZE, fsize - PGSIZE, present, dirty, spage);
    var head := if present(addr) && dirty(addr) then [PageWrite(file, addr, spage(addr).readbyte, spage(addr).offset)] else [];
    assert Writes(file, addr, fsize, present, dirty, spage) == head + rest;
    if k > 0 {
      assert addr + k * PGSIZE == (addr + PGSIZE) + (k - 1) * PGSIZE;
      DirtyPagesWritten(file, addr + PGSIZE, fsize - PGSIZE, k - 1, present, dirty, spage);
    } else {
      assert head[0] in head + rest;
    }
  }

  /** mmap_writeback's loop over file, whose length the function length
      gives (file_length): fsize counts down a page at a time while addr
      moves up a page at a time. The page-directory queries are the
      predicates present and dirty; clearing a page's dirty state and freeing
      its supplemental entry are not modelled. */
  method Writeback(file: File, addr: nat, length: File -> int, present: nat -> bool, dirty: nat -> bool,
                   spage: nat -> PageInfo) returns (writes: seq<PageWrite>, visited: nat)
    ensures writes == Writes(file, addr, length(file), present, dirty, spage)
    ensures visited == PageCount(length(file))
  {
    var fsize := length(file);
    var a: nat := addr;
    writes := [];
    visited := 0;
    while fsize > 0
      invariant visited + PageCount(fsize) == PageCount(length(file))
      invariant writes + Writes(file, a, fsize, present, dirty, spage) == Writes(file, addr, length(file), present, dirty, spage)
      decreases fsize
    {
      ghost var rest := Writes(file, a + PGSIZE, fsize - PGSIZE, present, dirty, spage);
      var head := if present(a) && dirty(a) then [PageWrite(file, a, spage(a).readbyte, spage(a).offset)] else [];
      assert Writes(file, a, fsize, present, dirty, spage) == head + rest;
      assert writes + (head + rest) == (writes + head) + rest;
      writes := writes + head;
      fsize := fsize - PGSIZE;
      a := a + PGSIZE;
      visited := visited + 1;
    }
  }

  /** All write-backs mmap_destroy issues for the mappings, in list order. */
  function DestroyWrites(ms: seq<Mapping>, length: File -> int, present: nat -> bool,
                         dirty: nat -> bool, spage: nat -> PageInfo): seq<PageWrite>
  {
    if ms == [] then []
    else Writes(ms[0].file, ms[0].addr, length(ms[0].file), present, dirty, spage)
         + DestroyWrites(ms[1..], length, present, dirty, spage)
  }

  /** Popping the front mapping moves its write-backs from what is left to
      what was issued. */
  lemma DestroyStep(ms: seq<Mapping>, writes: seq<PageWrite>, w: seq<PageWrite>, length: File -> int,
                    present: nat -> bool, dirty: nat -> bool, spage: nat -> PageInfo)
    requires ms != [] && w == Writes(ms[0].file, ms[0].addr, length(ms[0].file), present, dirty, spage)
    ensures writes + DestroyWrites(ms, length, present, dirty, spage)
            == (writes + w) + DestroyWrites(ms[1..], length, present, dirty, spage)
  {
    var rest := DestroyWrites(ms[1..], length, present, dirty, spage);
    assert DestroyWrites(ms, length, present, dirty, spage) == w + rest;
    assert (writes + w) + rest == writes + (w + rest);
  }

  class MapTable {
    /** The process's maplist, front to back. */
    var maplist: seq<Mapping>

    ghost predicate Valid()
      reads this
    {
      Increasing(maplist)
    }

    constructor ()
      ensures Valid() && maplist == []
    {
      maplist := [];
    }

    /** mmap_allocate: id 0 for an empty list, else one past the id at the
        back; the mapping is pushed at the back and its id returned. */
    method Allocate(file: File, addr: nat) returns (mapid: int)
      requires Valid()
      modifies this
      ensures Valid()
      ensures mapid == NextMapId(old(maplist))
      ensures forall k :: 0 <= k < |old(maplist)| ==> old(maplist)[k].mapid < mapid
      ensures maplist == old(maplist) + [Mapping(mapid, file, addr)]
    {
      mapid := if maplist == [] then 0 else maplist[|maplist| - 1].mapid + 1;
      maplist := maplist + [Mapping(mapid, file, addr)];
    }

    /** mmap_get: the mapping with that id, or NULL; the list is only read. */
    method Get(mapid: int) returns (r: Option<Mapping>)
      requires Valid()
      ensures r == None <==> forall k :: 0 <= k < |maplist| ==> maplist[k].mapid != mapid
      ensures r != None ==> r.value in maplist && r.value.mapid == mapid
    {
      var i := 0;
      while i < |maplist|
        invariant 0 <= i <= |maplist|
        invariant forall k :: 0 <= k < i ==> maplist[k].mapid != mapid
      {
        if maplist[i].mapid == mapid {
          return Some(maplist[i]);
        }
        i := i + 1;
      }
      return None;
    }

    /** mmap_destroy: pop each mapping from the front, write its dirty pages
        back and close its file; the list ends empty. */
    method Destroy(length: File -> int, present: nat -> bool, dirty: nat -> bool,
                   spage: nat -> PageInfo) returns (writes: seq<PageWrite>, closed: seq<File>)
      requires Valid()
      modifies this
      ensures Valid() && maplist == []
      ensures writes == DestroyWrites(old(maplist), length, present, dirty, spage)
      ensures |closed| == |old(maplist)|
      ensures forall k :: 0 <= k < |closed| ==> closed[k] == old(maplist)[k].file
    {
      writes, closed := [], [];
      while maplist != []
        invariant |closed| <= |old(maplist)| && maplist == old(maplist)[|closed|..]
        invariant forall k :: 0 <= k < |closed| ==> closed[k] == old(maplist)[k].file
        invariant writes + DestroyWrites(maplist, length, present, dirty, spage)
                  == DestroyWrites(old(maplist), length, present, dirty, spage)
        decreases |maplist|
      {
        var m := maplist[0];
        var w, _ := Writeback(m.file, m.addr, length, present, dirty, spage);
        DestroyStep(maplist, writes, w, length, present, dirty, spage);
        assert old(maplist)[|closed| + 1..] == maplist[1..];
        maplist := maplist[1..];
        writes := writes + w;
        closed := closed + [m.file];
      }
    }
  }
}
