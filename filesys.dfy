/** src/filesys/filesys.c: creating, opening and removing files by path,
    formatting and shutting down, composed from the directory layer, the
    free map, the inode layer and the buffer cache. The thread's current directory (the
    dir field of struct thread, src/threads/thread.c is not part of this
    model) is a parameter: None when the thread has none. */
module FileSys {
  import opened Bytes
  import opened Options
  import opened Bitmap
  import opened FreeMap
  import opened Cache
  import opened Directory
  import opened InodeDisk
  import opened InodeFile
  import opened Inode

  /** bitmap_file_size of lib/kernel/bitmap.c (not part of this model):
      the bytes of a bitmap of n bits, in whole 32-bit words. */
  function BitmapFileSize(n: nat): (size: nat)
    ensures 8 * size >= n && 8 * size < n + 32
  {
    4 * ((n + 31) / 32)
  }

  /** Every file and every parent the directory view records sits at a
      sector in use: the view knows no inode the free map does not hold. */
  ghost predicate Keyed(files: map<u32, seq<DirEntry>>, parents: map<u32, u32>, bits: seq<bool>)
  {
    (forall x :: x in files ==> InUse(bits, x as nat)) && forall x :: x in parents ==> InUse(bits, x as nat)
  }

  /** A name space that only leads to sectors in use, clearing one entry
      still does. */
  lemma ClosedClear(files: map<u32, seq<DirEntry>>, parents: map<u32, u32>, bits: seq<bool>,
                    dir: u32, k: nat)
    requires Closed(files, parents, bits) && Keyed(files, parents, bits) && dir in files && k < |files[dir]|
    ensures var files1 := files[dir := files[dir][k := files[dir][k].(inUse := false)]];
            Closed(files1, parents, bits) && Keyed(files1, parents, bits)
  {
  }

  /** inode_create at a sector just taken from the free map: records with
      no in-use entry and a parent in use keep the name space closed. */
  lemma ClosedCreate(files: map<u32, seq<DirEntry>>, parents: map<u32, u32>, bits: seq<bool>,
                     s: u32, rs: seq<DirEntry>, parent: u32)
    requires Closed(files, parents, bits) && s < |bits| && InUse(bits, parent as nat) && parent != s
    requires forall k :: 0 <= k < |rs| ==> !rs[k].inUse
    ensures Closed(files[s := rs], parents[s := parent], bits[s := true])
    ensures !bits[s] ==> Closed(files[s := rs], parents[s := parent], bits)
  {
  }

  /** dir_add of an entry naming a sector in use keeps the name space
      closed. */
  lemma ClosedAdd(files: map<u32, seq<DirEntry>>, parents: map<u32, u32>, bits: seq<bool>,
                  dir: u32, rs: seq<DirEntry>, e: DirEntry)
    requires Closed(files, parents, bits) && rs == (if dir in files then files[dir] else [])
    requires InUse(bits, dir as nat) && InUse(bits, e.sector as nat)
    ensures Closed(files[dir := PutRecord(rs, FirstFreeSlot(rs), e)], parents, bits)
  {
    var r := PutRecord(rs, FirstFreeSlot(rs), e);
    forall k | 0 <= k < |r| && r[k].inUse ensures InUse(bits, r[k].sector as nat) {
      if k != FirstFreeSlot(rs) {
        assert r[k] == rs[k];
      }
    }
  }

  /** Taking more sectors from the free map keeps a keyed name space
      closed. */
  lemma ClosedGrow(files: map<u32, seq<DirEntry>>, parents: map<u32, u32>, bits: seq<bool>, bits1: seq<bool>)
    requires Closed(files, parents, bits) && Keyed(files, parents, bits)
    requires |bits1| == |bits| && forall x :: 0 <= x < |bits| && bits[x] ==> bits1[x]
    ensures Closed(files, parents, bits1) && Keyed(files, parents, bits1)
  {
  }

  /** dir_add of an entry for the new inode at s, then the inode's own
      blank records and parent: the name space stays closed and keyed. */
  lemma ClosedEnter(files: map<u32, seq<DirEntry>>, parents: map<u32, u32>, bits: seq<bool>,
                    dir: u32, e: DirEntry, rs: seq<DirEntry>, parent: u32)
    requires Closed(files, parents, bits) && Keyed(files, parents, bits)
    requires InUse(bits, dir as nat) && InUse(bits, e.sector as nat) && InUse(bits, parent as nat)
    requires dir != e.sector && parent != e.sector
    requires forall k :: 0 <= k < |rs| ==> !rs[k].inUse
    ensures var r := if dir in files then files[dir] else [];
            var files1 := files[dir := PutRecord(r, FirstFreeSlot(r), e)][e.sector := rs];
            Closed(files1, parents[e.sector := parent], bits) && Keyed(files1, parents[e.sector := parent], bits)
  {
    var r := if dir in files then files[dir] else [];
    ClosedAdd(files, parents, bits, dir, r, e);
    var files0 := files[dir := PutRecord(r, FirstFreeSlot(r), e)];
    ClosedCreate(files0, parents, bits, e.sector, rs, parent);
    assert bits[e.sector := true] == bits;
  }

  /** do_format's name space: from a view that knows only the free-map
      and root sectors, giving the free map's file and the root blank
      records leaves it closed and keyed. */
  lemma ClosedFormat(files: map<u32, seq<DirEntry>>, parents: map<u32, u32>, bits0: seq<bool>, bits: seq<bool>,
                     rs: seq<DirEntry>, rootParent: u32)
    requires Keyed(files, parents, bits0) && |bits| == |bits0|
    requires forall x :: 0 <= x < |bits0| ==> (bits0[x] <==> x == FREE_MAP_SECTOR || x == ROOT_DIR_SECTOR)
    requires InUse(bits, FREE_MAP_SECTOR) && InUse(bits, ROOT_DIR_SECTOR) && InUse(bits, rootParent as nat)
    requires forall k :: 0 <= k < |rs| ==> !rs[k].inUse
    ensures var files1 := files[FREE_MAP_SECTOR as u32 := rs][ROOT_DIR_SECTOR as u32 := []];
            var parents1 := parents[FREE_MAP_SECTOR as u32 := 0][ROOT_DIR_SECTOR as u32 := rootParent];
            Closed(files1, parents1, bits) && Keyed(files1, parents1, bits)
  {
  }

  /** The free map bits is bits0 with exactly the sectors inode d at
      isector owns taken, none of which was in use in bits0. */
  ghost predicate Took(bits0: seq<bool>, bits: seq<bool>, d: DiskInode, blocks: seq<seq<byte>>, isector: nat)
    requires Readable(d, blocks)
  {
    |bits| == |bits0|
    && forall x :: 0 <= x < |bits| ==> bits[x] == (bits0[x] || Owns(d, blocks, isector, x))
                                       && (Owns(d, blocks, isector, x) ==> !bits0[x])
  }

  /** bits keeps every sector in use in bits0 and holds every sector inode
      d at isector owns, none of which was in use in bits0. Unlike Took it
      allows other sectors to be taken too, as dir_add's write may do when
      it extends the directory file. */
  ghost predicate Kept(bits0: seq<bool>, bits: seq<bool>, d: DiskInode, blocks: seq<seq<byte>>, isector: nat)
    requires Readable(d, blocks)
  {
    |bits| == |bits0|
    && forall x :: 0 <= x < |bits| ==> (bits0[x] ==> bits[x])
                                       && (Owns(d, blocks, isector, x) ==> bits[x] && !bits0[x])
  }

  class FileSystem {
    const dirs: Directories
    const fm: FreeMap
    const cache: BufferCache
    /** The open inodes, over the same free map. Their device is the disk
        as every reader sees it through the cache, kept apart from the
        cache's own device object. */
    const inodes: InodeTable

    ghost predicate Valid()
      reads this, dirs, fm, cache, inodes, inodes.disk
    {
      dirs.Valid() && fm.Valid() && inodes.fm == fm && inodes.Valid() && inodes.disk != cache.dev
      && NamesOver(fm.bits)
    }

    /** Over the free map bits, the free-map and root sectors are in use
        and the name space is closed and keyed. */
    ghost predicate NamesOver(bits: seq<bool>)
      reads dirs
    {
      InUse(bits, FREE_MAP_SECTOR) && InUse(bits, ROOT_DIR_SECTOR)
      && Closed(dirs.files, dirs.parents, bits) && Keyed(dirs.files, dirs.parents, bits)
    }

    constructor (dirs: Directories, fm: FreeMap, cache: BufferCache, inodes: InodeTable)
      ensures this.dirs == dirs && this.fm == fm && this.cache == cache && this.inodes == inodes
    {
      this.dirs, this.fm, this.cache, this.inodes := dirs, fm, cache, inodes;
    }

    /** The sector walks from the thread's directory start at is in use. */
    ghost predicate CwdInUse(cwd: Option<u32>)
      reads fm
    {
      cwd.Some? ==> InUse(fm.bits, cwd.value as nat)
    }

    /** Where dir_chdir ends for name from the thread's directory cwd, and
        the start is in use. */
    lemma TargetInUse(cwd: Option<u32>, name: string)
      requires Valid() && CwdInUse(cwd)
      ensures var t := dirs.Target(dirs.OpenCur(cwd), name);
              t.Some? ==> InUse(fm.bits, t.value.0 as nat)
    {
      var start := dirs.OpenCur(cwd);
      if start.Some? && name != "" {
        var copy := Copy(name);
        var from := if copy[0] == '/' then ROOT_DIR_SECTOR as u32 else start.value;
        var ts := Tokens(copy);
        if ts != [] {
          dirs.ResolveInUse(from, ts[..|ts| - 1], fm.bits);
        }
      }
    }

    /** The first steps of filesys_create: the thread's directory is
        opened, dir_chdir walks to the directory holding the last component
        of name, and free_map_allocate takes a free sector. ok exactly when
        all three succeed; the free map changes only then, by that sector,
        which the directory view does not know yet. */
    method Reserve(cwd: Option<u32>, name: string) returns (ok: bool, dir: u32, filename: string, s: u32, parent: u32)
      requires Valid() && CwdInUse(cwd)
      modifies fm
      ensures Valid()
      ensures var t := old(dirs.Target(dirs.OpenCur(cwd), name));
              ok <==> t.Some? && FirstFree(old(fm.bits)) >= 0
      ensures ok ==> var start := old(dirs.OpenCur(cwd));
                     var t := old(dirs.Target(start, name));
                     && start.Some? && parent == start.value && InUse(old(fm.bits), parent as nat)
                     && dir == t.value.0 && filename == t.value.1 && InUse(old(fm.bits), dir as nat)
                     && s as int == FirstFree(old(fm.bits)) && fm.bits == old(fm.bits)[s := true]
                     && s !in dirs.files && s !in dirs.parents
      ensures !ok ==> fm.bits == old(fm.bits)
    {
      var start := dirs.OpenCur(cwd);
      parent := if start.Some? then start.value else SENTINEL;
      dir, filename, s := 0, "", SENTINEL;
      if start.None? {
        return false, dir, filename, s, parent;
      }
      TargetInUse(cwd, name);
      var found, d, f := dirs.ChangeDir(start, name);
      if !found {
        return false, dir, filename, s, parent;
      }
      dir, filename := d.value, f;
      s := fm.Allocate();
      if s == SENTINEL {
        return false, dir, filename, s, parent;
      }
      ClosedGrow(dirs.files, dirs.parents, old(fm.bits), fm.bits);
      ok := true;
    }

    /** The rest of filesys_create, once sector s is taken: inode_create
        of a file of initialSize bytes whose parent is parent, then dir_add
        of its entry, written saying whether inode_write_at wrote the whole
        directory record. Whatever dir_add does, the free map keeps every
        sector the new inode owns. */
    method Install(dir: u32, filename: string, s: u32, parent: u32, initialSize: nat, isDir: bool, written: bool)
      returns (success: bool, ghost d: DiskInode)
      requires Valid() && InUse(fm.bits, s as nat) && s !in dirs.files && s !in dirs.parents
      requires InUse(fm.bits, dir as nat) && InUse(fm.bits, parent as nat) && dir != s && parent != s
      requires initialSize <= MAX_LENGTH
      modifies dirs, fm, inodes.disk
      ensures Valid()
      ensures Tree(d, inodes.disk.blocks, fm.bits, s) && Trimmed(d, inodes.disk.blocks, initialSize)
      ensures AllZero(d, inodes.disk.blocks) && d.length as nat == initialSize && d.parent == parent
      ensures Took(old(fm.bits)[s := false], fm.bits, d, inodes.disk.blocks, s) && inodes.disk.blocks[s] == EncodeInode(d)
      ensures initialSize > 0 && Count(old(fm.bits)) < |fm.bits| ==> BlockAt(d, inodes.disk.blocks, 0) != SENTINEL
      ensures success <==> ValidName(filename) && FindName(old(dirs.Records(dir)), filename) == -1 && written
      ensures success ==> dirs.Records(s) == Blank(initialSize / ENTRY_SIZE) && dirs.Parent(s) == parent
                          && dirs.Looked(dir, filename) == Some((s, isDir))
                          && forall x :: x != s && x != dir ==> dirs.Records(x) == old(dirs.Records(x))
      ensures !success ==> dirs.files == old(dirs.files) && dirs.parents == old(dirs.parents)
    {
      d := MakeInode(s, initialSize, parent);
      success := Enter(dir, filename, s, parent, initialSize, isDir, written);
    }

    /** inode_create at the sector s just taken: the free map gains
        exactly the sectors the new inode owns. */
    method MakeInode(s: u32, initialSize: nat, parent: u32) returns (ghost d: DiskInode)
      requires Valid() && InUse(fm.bits, s as nat) && initialSize <= MAX_LENGTH
      modifies fm, inodes.disk
      ensures Valid()
      ensures Tree(d, inodes.disk.blocks, fm.bits, s) && Trimmed(d, inodes.disk.blocks, initialSize)
      ensures AllZero(d, inodes.disk.blocks) && d.length as nat == initialSize && d.parent == parent
      ensures Took(old(fm.bits)[s := false], fm.bits, d, inodes.disk.blocks, s) && inodes.disk.blocks[s] == EncodeInode(d)
      ensures initialSize > 0 && Count(old(fm.bits)) < |fm.bits| ==> BlockAt(d, inodes.disk.blocks, 0) != SENTINEL
    {
      ghost var bits0 := fm.bits;
      var ok;
      ok, d := inodes.Create(s, initialSize, parent);
      ClosedGrow(dirs.files, dirs.parents, bits0, fm.bits);
    }

    /** dir_add of the new inode's entry. The directory view records the
        new inode only when dir_add succeeds, so that a failed create
        leaves the view as it was. */
    method Enter(dir: u32, filename: string, s: u32, parent: u32, initialSize: nat, isDir: bool, written: bool)
      returns (success: bool)
      requires Valid() && InUse(fm.bits, s as nat) && s !in dirs.files && s !in dirs.parents
      requires InUse(fm.bits, dir as nat) && InUse(fm.bits, parent as nat) && dir != s && parent != s
      modifies dirs
      ensures Valid()
      ensures success <==> ValidName(filename) && FindName(old(dirs.Records(dir)), filename) == -1 && written
      ensures success ==> dirs.Records(s) == Blank(initialSize / ENTRY_SIZE) && dirs.Parent(s) == parent
                          && dirs.Looked(dir, filename) == Some((s, isDir))
                          && forall x :: x != s && x != dir ==> dirs.Records(x) == old(dirs.Records(x))
      ensures !success ==> dirs.files == old(dirs.files) && dirs.parents == old(dirs.parents)
    {
      ghost var files0 := dirs.files;
      ghost var rs := dirs.Records(dir);
      success := dirs.Add(dir, filename, s, isDir, written);
      if success {
        var e := DirEntry(s, filename, true, isDir);
        AddFound(rs, FirstFreeSlot(rs), e);
        assert dirs.Records(dir)[FirstFreeSlot(rs)] == e;
        ClosedEnter(files0, dirs.parents, fm.bits, dir, e, Blank(initialSize / ENTRY_SIZE), parent);
        dirs.CreateInode(s, initialSize, parent);
      }
    }

    /** filesys_create with the inode of a failed dir_add removed whole:
        walks to the directory holding the last component of name, takes
        a free sector, creates an inode of initialSize bytes there whose
        parent is the thread's directory (not the directory it is entered
        in), and adds it under that component. On success the free map
        has taken every sector the new inode owns and released none; on
        failure it has released every one of them, and when no record write
        was attempted it is as it was. */
    method Create(cwd: Option<u32>, name: string, initialSize: nat, isDir: bool, written: bool)
      returns (success: bool, ghost d: DiskInode)
      requires Valid() && CwdInUse(cwd) && initialSize <= MAX_LENGTH
      modifies dirs, fm, inodes.disk
      ensures Valid()
      ensures var start := old(dirs.OpenCur(cwd));
              var t := old(dirs.Target(start, name));
              success <==> t.Some? && FirstFree(old(fm.bits)) >= 0 && ValidName(t.value.1)
                           && FindName(old(dirs.Records(t.value.0)), t.value.1) == -1 && written
      ensures success ==>
                FirstFree(old(fm.bits)) >= 0
                && var start := old(dirs.OpenCur(cwd));
                   var t := old(dirs.Target(start, name));
                   var s := FirstFree(old(fm.bits)) as u32;
                   && Tree(d, inodes.disk.blocks, fm.bits, s) && Trimmed(d, inodes.disk.blocks, initialSize)
                   && AllZero(d, inodes.disk.blocks) && d.length as nat == initialSize && d.parent == start.value
                   && Kept(old(fm.bits), fm.bits, d, inodes.disk.blocks, s)
                   && dirs.Records(s) == Blank(initialSize / ENTRY_SIZE) && dirs.Parent(s) == start.value
                   && dirs.Looked(t.value.0, t.value.1) == Some((s, isDir))
                   && forall x :: x != s && x != t.value.0 ==> dirs.Records(x) == old(dirs.Records(x))
      ensures !success ==> dirs.files == old(dirs.files) && dirs.parents == old(dirs.parents)
      ensures !success ==> |fm.bits| == |old(fm.bits)| && forall x :: 0 <= x < |fm.bits| && old(fm.bits)[x] ==> fm.bits[x]
      ensures !success && written ==> fm.bits == old(fm.bits)
    {
      var ok, dir, filename, s, parent := Reserve(cwd, name);
      if !ok {
        d := NewRecord(0, 0);
        return false, d;
      }
      assert fm.bits[s := false] == old(fm.bits);
      success, d := Install(dir, filename, s, parent, initialSize, isDir, written);
      if !success {
        Discard(s, d, old(fm.bits));
      }
    }

    /** inode_remove and inode_close of the inode just made at s, read back
        from its record: every sector it owns goes back, leaving the free
        map as it was before s was taken. */
    method Discard(s: u32, ghost d: DiskInode, ghost bits0: seq<bool>)
      requires Valid() && Tree(d, inodes.disk.blocks, fm.bits, s) && inodes.disk.blocks[s] == EncodeInode(d)
      requires Trimmed(d, inodes.disk.blocks, d.length as nat) && Took(bits0, fm.bits, d, inodes.disk.blocks, s)
      requires NamesOver(bits0)
      modifies fm
      ensures Valid() && fm.bits == bits0
    {
      DecodeEncodeInode(d);
      var record := DecodeInode(inodes.disk.blocks[s]);
      inodes.Free(record, s);
      assert fm.bits == bits0;
    }

    /** filesys_create as written: when dir_add fails, only the record's
        sector goes back to the free map, and every sector inode_create
        took for the file's blocks stays in use, owned by nothing. */
    method CreateAsWritten(cwd: Option<u32>, name: string, initialSize: nat, isDir: bool, written: bool)
      returns (success: bool, ghost d: DiskInode)
      requires Valid() && CwdInUse(cwd) && initialSize <= MAX_LENGTH
      modifies dirs, fm, inodes.disk
      ensures Valid()
      ensures var start := old(dirs.OpenCur(cwd));
              var t := old(dirs.Target(start, name));
              success <==> t.Some? && FirstFree(old(fm.bits)) >= 0 && ValidName(t.value.1)
                           && FindName(old(dirs.Records(t.value.0)), t.value.1) == -1 && written
      ensures !success && written && old(dirs.Target(dirs.OpenCur(cwd), name)).Some? && FirstFree(old(fm.bits)) >= 0 ==>
                var s := FirstFree(old(fm.bits));
                && |fm.bits| == |old(fm.bits)| && Readable(d, inodes.disk.blocks)
                && forall x :: 0 <= x < |fm.bits| ==> fm.bits[x] == (old(fm.bits)[x] || (x != s && Owns(d, inodes.disk.blocks, s, x)))
      ensures !success && written && old(dirs.Target(dirs.OpenCur(cwd), name)).Some? && initialSize > 0
              && FirstFree(old(fm.bits)) >= 0 && Count(old(fm.bits)) + 2 <= |old(fm.bits)| ==>
                exists x :: 0 <= x < |old(fm.bits)| && 0 <= x < |fm.bits| && fm.bits[x] && !old(fm.bits)[x]
    {
      var ok, dir, filename, s, parent := Reserve(cwd, name);
      if !ok {
        d := NewRecord(0, 0);
        return false, d;
      }
      assert fm.bits[s := false] == old(fm.bits);
      CountSet(old(fm.bits), s as nat, true);
      success, d := InstallAsWritten(dir, filename, s, parent, initialSize, isDir, written, old(fm.bits));
    }

    /** The rest of filesys_create as written, once sector s is taken from
        the free map bits0. */
    method InstallAsWritten(dir: u32, filename: string, s: u32, parent: u32, initialSize: nat, isDir: bool,
                            written: bool, ghost bits0: seq<bool>) returns (success: bool, ghost d: DiskInode)
      requires Valid() && InUse(fm.bits, s as nat) && NamesOver(bits0)
      requires InUse(fm.bits, dir as nat) && InUse(fm.bits, parent as nat) && dir != s && parent != s
      requires initialSize <= MAX_LENGTH && bits0 == fm.bits[s := false] && Count(bits0) + 1 == Count(fm.bits)
      modifies dirs, fm, inodes.disk
      ensures Valid()
      ensures success <==> ValidName(filename) && FindName(old(dirs.Records(dir)), filename) == -1 && written
      ensures !success ==>
                && |fm.bits| == |bits0| && Readable(d, inodes.disk.blocks)
                && forall x :: 0 <= x < |fm.bits| ==> fm.bits[x] == (bits0[x] || (x != s as nat && Owns(d, inodes.disk.blocks, s as nat, x)))
      ensures !success && initialSize > 0 && Count(bits0) + 2 <= |bits0| ==>
                exists x :: 0 <= x < |bits0| && 0 <= x < |fm.bits| && fm.bits[x] && !bits0[x]
    {
      success, d := Install(dir, filename, s, parent, initialSize, isDir, written);
      if !success {
        ReleaseRecord(s, d, initialSize, bits0);
      }
    }

    /** free_map_release of the record's sector alone, after a failed
        dir_add: the sectors of the file's blocks stay in use, and when
        inode_create could map its first block, that one is among them. */
    method ReleaseRecord(s: u32, ghost d: DiskInode, ghost initialSize: nat, ghost bits0: seq<bool>)
      requires Valid() && Tree(d, inodes.disk.blocks, fm.bits, s) && Took(bits0, fm.bits, d, inodes.disk.blocks, s)
      requires NamesOver(bits0)
      requires initialSize > 0 && Count(bits0) + 1 < |fm.bits| ==> BlockAt(d, inodes.disk.blocks, 0) != SENTINEL
      modifies fm
      ensures Valid() && Readable(d, inodes.disk.blocks) && |fm.bits| == |bits0|
      ensures forall x :: 0 <= x < |fm.bits| ==> fm.bits[x] == (bits0[x] || (x != s as nat && Owns(d, inodes.disk.blocks, s as nat, x)))
      ensures initialSize > 0 && Count(bits0) + 1 < |fm.bits| ==>
                exists x :: 0 <= x < |fm.bits| && fm.bits[x] && !bits0[x]
    {
      ghost var bits1 := fm.bits;
      fm.Release(s as nat);
      assert fm.bits[s := true] == bits1;
      ClosedGrow(dirs.files, dirs.parents, bits0, fm.bits);
      if initialSize > 0 && Count(bits0) + 1 < |fm.bits| {
        var blocks := inodes.disk.blocks;
        var x := BlockAt(d, blocks, 0);
        PointerOfBlock(d, blocks, 0);
        assert Pointers(d, blocks)[DataPos(0)] == x;
        assert 0 <= x as int < |fm.bits| && fm.bits[x] && !bits0[x];
      }
    }

    /** filesys_open: "/" gives the root directory; any other name gives
        what dir_lookup obtains for its last component in the directory the
        walk ends at, as a directory or a file, and nothing when the walk
        or the lookup fails. */
    method Open(cwd: Option<u32>, name: string) returns (r: Option<(u32, bool)>)
      ensures name == "/" ==> r == Some((ROOT_DIR_SECTOR as u32, true))
      ensures name != "/" ==>
                var t := dirs.Target(dirs.OpenCur(cwd), name);
                r == if t.None? then None else dirs.Looked(t.value.0, t.value.1)
    {
      if name == "/" {
        return Some((ROOT_DIR_SECTOR as u32, true));
      }
      var start := dirs.OpenCur(cwd);
      var ok, dir, filename := dirs.ChangeDir(start, name);
      if !ok {
        return None;
      }
      r := dirs.DirLookup(dir.value, filename);
    }

    /** filesys_remove: refuses "/"; otherwise succeeds exactly when the
        walk succeeds and dir_remove clears the last component's entry in
        the directory the walk ends at. The free map can only lose sectors,
        and only on success, when the removed inode's last close gives its
        sectors back. */
    method Remove(cwd: Option<u32>, name: string, written: bool) returns (success: bool)
      requires Valid()
      modifies dirs, fm
      ensures Valid()
      ensures |fm.bits| == |old(fm.bits)| && forall x :: 0 <= x < |fm.bits| && fm.bits[x] ==> old(fm.bits)[x]
      ensures !success ==> fm.bits == old(fm.bits)
      ensures var t := old(dirs.Target(dirs.OpenCur(cwd), name));
              success <==> name != "/" && t.Some? && old(dirs.Removable(t.value.0, t.value.1)) && written
      ensures var t := old(dirs.Target(dirs.OpenCur(cwd), name));
              success ==> dirs.Looked(t.value.0, t.value.1) == None
                          && forall x :: x != t.value.0 ==> dirs.Records(x) == old(dirs.Records(x))
      ensures !success ==> dirs.files == old(dirs.files) && dirs.removed == old(dirs.removed)
    {
      if name == "/" {
        return false;
      }
      var start := dirs.OpenCur(cwd);
      var ok, dir, filename := dirs.ChangeDir(start, name);
      if !ok {
        return false;
      }
      success := Unlink(dir.value, filename, written);
    }

    /** dir_remove in the directory the walk ends at. */
    method Unlink(dir: u32, filename: string, written: bool) returns (success: bool)
      requires Valid()
      modifies dirs
      ensures Valid()
      ensures success <==> old(dirs.Removable(dir, filename)) && written
      ensures success ==> dirs.Looked(dir, filename) == None
                          && forall x :: x != dir ==> dirs.Records(x) == old(dirs.Records(x))
      ensures !success ==> dirs.files == old(dirs.files) && dirs.removed == old(dirs.removed)
    {
      ghost var rs := dirs.Records(dir);
      ghost var k := FindName(rs, filename);
      success := dirs.Remove(dir, filename, written);
      if success {
        assert dir in old(dirs.files);
        ClosedClear(old(dirs.files), dirs.parents, fm.bits, dir, k);
      }
    }

    /** What do_format needs: the free map free_map_init leaves, with only
        its own sector and the root's in use, a directory view that knows
        no other inode, and a free-map file that fits an inode. */
    ghost predicate Formattable()
      reads this, dirs, fm, cache, inodes, inodes.disk
    {
      dirs.Valid() && fm.Valid() && inodes.fm == fm && inodes.Valid() && inodes.disk != cache.dev
      && (forall x :: 0 <= x < |fm.bits| ==> (fm.bits[x] <==> x == FREE_MAP_SECTOR || x == ROOT_DIR_SECTOR))
      && Keyed(dirs.files, dirs.parents, fm.bits) && BitmapFileSize(|fm.bits|) <= MAX_LENGTH
    }

    /** do_format as written: free_map_create's inode_create makes the
        free map's own file of BitmapFileSize bytes at FREE_MAP_SECTOR,
        taking the sectors its blocks need, then dir_create makes an empty
        root directory at ROOT_DIR_SECTOR, with parent 0, the free map's
        inode (see Directories.UpFromRootAsWritten for where ".." then
        leads). The directory view reads the free map's file as
        BitmapFileSize / ENTRY_SIZE blank records: that holds of the
        zeroed file inode_create leaves, and, once bitmap_write fills it,
        only while byte 19 of every 28-byte record, where in_use lies,
        happens to be zero; those bytes change with every allocation. */
    method FormatAsWritten() returns (ghost d: DiskInode, ghost root: DiskInode)
      requires Formattable()
      modifies dirs, fm, inodes.disk
      ensures Valid()
      ensures dirs.Records(ROOT_DIR_SECTOR as u32) == [] && dirs.Parent(ROOT_DIR_SECTOR as u32) == FREE_MAP_SECTOR as u32
      ensures dirs.Records(FREE_MAP_SECTOR as u32) == Blank(BitmapFileSize(|fm.bits|) / ENTRY_SIZE)
      ensures Tree(d, inodes.disk.blocks, fm.bits, FREE_MAP_SECTOR) && Trimmed(d, inodes.disk.blocks, d.length as nat)
      ensures d.length as nat == BitmapFileSize(|fm.bits|) && d.parent == 0
      ensures Tree(root, inodes.disk.blocks, fm.bits, ROOT_DIR_SECTOR) && root.length == 0 && root.parent == 0
      ensures |fm.bits| == |old(fm.bits)|
      ensures forall x :: 0 <= x < |fm.bits| ==>
                fm.bits[x] == (x == ROOT_DIR_SECTOR || Owns(d, inodes.disk.blocks, FREE_MAP_SECTOR, x))
    {
      ghost var files0, parents0 := dirs.files, dirs.parents;
      d, root := MakeFiles(0);
      dirs.CreateInode(FREE_MAP_SECTOR as u32, BitmapFileSize(|fm.bits|), 0);
      var ok := dirs.Create(ROOT_DIR_SECTOR as u32, 0);
      ClosedFormat(files0, parents0, old(fm.bits), fm.bits, Blank(BitmapFileSize(|fm.bits|) / ENTRY_SIZE), 0);
    }

    /** do_format with the root directory its own parent, so that ".."
        at the root stays there (Directories.UpFromRoot,
        Directories.UpStays). */
    method Format() returns (ghost d: DiskInode, ghost root: DiskInode)
      requires Formattable()
      modifies dirs, fm, inodes.disk
      ensures Valid()
      ensures dirs.Records(ROOT_DIR_SECTOR as u32) == [] && dirs.Parent(ROOT_DIR_SECTOR as u32) == ROOT_DIR_SECTOR as u32
      ensures dirs.Records(FREE_MAP_SECTOR as u32) == Blank(BitmapFileSize(|fm.bits|) / ENTRY_SIZE)
      ensures Tree(d, inodes.disk.blocks, fm.bits, FREE_MAP_SECTOR) && Trimmed(d, inodes.disk.blocks, d.length as nat)
      ensures d.length as nat == BitmapFileSize(|fm.bits|) && d.parent == 0
      ensures Tree(root, inodes.disk.blocks, fm.bits, ROOT_DIR_SECTOR) && root.length == 0
      ensures root.parent == ROOT_DIR_SECTOR as u32
      ensures |fm.bits| == |old(fm.bits)|
      ensures forall x :: 0 <= x < |fm.bits| ==>
                fm.bits[x] == (x == ROOT_DIR_SECTOR || Owns(d, inodes.disk.blocks, FREE_MAP_SECTOR, x))
    {
      ghost var files0, parents0 := dirs.files, dirs.parents;
      d, root := MakeFiles(ROOT_DIR_SECTOR as u32);
      dirs.CreateInode(FREE_MAP_SECTOR as u32, BitmapFileSize(|fm.bits|), 0);
      dirs.CreateInode(ROOT_DIR_SECTOR as u32, 0, ROOT_DIR_SECTOR as u32);
      ClosedFormat(files0, parents0, old(fm.bits), fm.bits, Blank(BitmapFileSize(|fm.bits|) / ENTRY_SIZE), ROOT_DIR_SECTOR as u32);
    }

    /** The inodes do_format creates: the free map's file, then an empty
        root directory whose parent is rootParent. */
    method MakeFiles(rootParent: u32) returns (ghost d: DiskInode, ghost root: DiskInode)
      requires Formattable() && (rootParent as nat == FREE_MAP_SECTOR || rootParent as nat == ROOT_DIR_SECTOR)
      modifies fm, inodes.disk
      ensures fm.Valid() && inodes.Valid()
      ensures Tree(d, inodes.disk.blocks, fm.bits, FREE_MAP_SECTOR) && Trimmed(d, inodes.disk.blocks, d.length as nat)
      ensures d.length as nat == BitmapFileSize(|fm.bits|) && d.parent == 0
      ensures Tree(root, inodes.disk.blocks, fm.bits, ROOT_DIR_SECTOR) && root.length == 0 && root.parent == rootParent
      ensures |fm.bits| == |old(fm.bits)|
      ensures forall x :: 0 <= x < |fm.bits| ==>
                fm.bits[x] == (x == ROOT_DIR_SECTOR || Owns(d, inodes.disk.blocks, FREE_MAP_SECTOR, x))
    {
      var ok;
      ok, d := inodes.Create(FREE_MAP_SECTOR as u32, BitmapFileSize(|fm.bits|), 0);
      assert old(fm.bits)[ROOT_DIR_SECTOR];
      root := MakeRoot(rootParent, d);
    }

    /** dir_create of the root after the free map's file d exists: making
        the root takes no sector and leaves d as it was. */
    method MakeRoot(rootParent: u32, ghost d: DiskInode) returns (ghost root: DiskInode)
      requires inodes.Valid() && inodes.fm == fm && InUse(fm.bits, ROOT_DIR_SECTOR)
      requires Tree(d, inodes.disk.blocks, fm.bits, FREE_MAP_SECTOR) && !Owns(d, inodes.disk.blocks, FREE_MAP_SECTOR, ROOT_DIR_SECTOR)
      modifies fm, inodes.disk
      ensures inodes.Valid() && fm.bits == old(fm.bits)
      ensures Tree(d, inodes.disk.blocks, fm.bits, FREE_MAP_SECTOR)
      ensures Pointers(d, inodes.disk.blocks) == Pointers(d, old(inodes.disk.blocks))
      ensures forall j :: 0 <= j < INODE_MAX_SECTOR ==> BlockAt(d, inodes.disk.blocks, j) == BlockAt(d, old(inodes.disk.blocks), j)
      ensures Tree(root, inodes.disk.blocks, fm.bits, ROOT_DIR_SECTOR) && root.length == 0 && root.parent == rootParent
    {
      ghost var b1 := inodes.disk.blocks;
      IndexAmongPointers(d, b1);
      var ok;
      ok, root := inodes.Create(ROOT_DIR_SECTOR as u32, 0, rootParent);
      TreeKept(d, b1, inodes.disk.blocks, fm.bits, FREE_MAP_SECTOR);
    }

    /** filesys_done: the cache is written back, so the device holds what
        every reader saw, before the free map file is closed. */
    method Done()
      requires Valid() && cache.Valid()
      modifies cache, cache.dev
      ensures Valid() && cache.Valid()
      ensures |cache.dev.blocks| == |old(cache.dev.blocks)| && cache.entries == []
      ensures forall s :: 0 <= s < |cache.dev.blocks| ==> cache.dev.blocks[s] == old(cache.View(s))
    {
      cache.Writeback();
    }
  }
}
