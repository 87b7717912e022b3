/** src/filesys/directory.c: a directory is a file holding an array of
    fixed-size entry records. Here a directory file is seen as the records
    inode_read_at returns for it, record k being the bytes at offset
    k * ENTRY_SIZE; a directory handle is the inode sector it reads plus,
    for dir_readdir, a cursor. */
module Directory {
  import opened Bytes
  import opened Options
  import opened FreeMap

  /** NAME_MAX of src/filesys/directory.h. */
  const NAME_MAX: nat := 14
  /** sizeof (struct dir_entry): sector, name[NAME_MAX + 1], in_use, isdir,
      padding, parent_sector. */
  const ENTRY_SIZE: nat := 28
  /** strlcpy (name_cp, name, PGSIZE) in dir_chdir keeps at most this many
      characters of a path. */
  const PATH_COPY_MAX: nat := 4095

  /** struct dir_entry as dir_lookup and friends use it. */
  datatype DirEntry = DirEntry(sector: u32, name: string, inUse: bool, isDir: bool)

  /** A record of zero bytes: what inode_create leaves behind. */
  const BLANK := DirEntry(0, "", false, false)

  /** The records of a file of entryCnt * ENTRY_SIZE zero bytes. */
  function Blank(n: nat): (rs: seq<DirEntry>)
    ensures |rs| == n && forall k :: 0 <= k < n ==> !rs[k].inUse
  {
    seq(n, _ => BLANK)
  }

  /** dir_add's test of a name it may store. */
  predicate ValidName(name: string)
  {
    name != "" && |name| <= NAME_MAX && name != "." && name != ".."
  }

  /** What lookup matches: an in-use record of that name. */
  predicate Names(e: DirEntry, name: string)
  {
    e.inUse && e.name == name
  }

  /** The index of the first record lookup matches, or -1. */
  function FindName(rs: seq<DirEntry>, name: string): (k: int)
    ensures -1 <= k < |rs|
    ensures k >= 0 ==> Names(rs[k], name) && forall j :: 0 <= j < k ==> !Names(rs[j], name)
    ensures k == -1 <==> forall j :: 0 <= j < |rs| ==> !Names(rs[j], name)
  {
    if rs == [] then -1
    else if Names(rs[0], name) then 0
    else
      var k := FindName(rs[1..], name);
      assert forall j :: 1 <= j < |rs| ==> rs[j] == rs[1..][j - 1];
      if k == -1 then -1 else k + 1
  }

  /** The slot dir_add writes to: the first free record, else the end. */
  function FirstFreeSlot(rs: seq<DirEntry>): (k: nat)
    ensures k <= |rs| && (k < |rs| ==> !rs[k].inUse)
    ensures forall j :: 0 <= j < k ==> rs[j].inUse
  {
    if rs == [] || !rs[0].inUse then 0
    else
      var k := FirstFreeSlot(rs[1..]);
      assert forall j :: 1 <= j < |rs| ==> rs[j] == rs[1..][j - 1];
      k + 1
  }

  /** The records after a whole record e is written at slot k, k at most the
      number of records. */
  function PutRecord(rs: seq<DirEntry>, k: nat, e: DirEntry): (r: seq<DirEntry>)
    requires k <= |rs|
  {
    if k < |rs| then rs[k := e] else rs + [e]
  }

  /** The first in-use record at or after i, or -1. */
  function NextInUse(rs: seq<DirEntry>, i: nat): (k: int)
    ensures k == -1 || i <= k < |rs|
    ensures k >= 0 ==> rs[k].inUse && forall j :: i <= j < k ==> !rs[j].inUse
    ensures k == -1 <==> forall j :: i <= j < |rs| ==> !rs[j].inUse
    decreases |rs| - i
  {
    if i >= |rs| then -1
    else if rs[i].inUse then i
    else NextInUse(rs, i + 1)
  }

  /** The names of the in-use records, in file order. */
  function InUseNames(rs: seq<DirEntry>): seq<string>
  {
    if rs == [] then []
    else (if rs[0].inUse then [rs[0].name] else []) + InUseNames(rs[1..])
  }

  /** The names successive dir_readdir calls return from record i on. */
  function Listing(rs: seq<DirEntry>, i: nat): seq<string>
    decreases |rs| - i
  {
    var k := NextInUse(rs, i);
    if k < 0 then [] else [rs[k].name] + Listing(rs, k + 1)
  }

  /** Reading a directory to its end with dir_readdir from record i gives
      exactly the names of the in-use records from i on, in file order. */
  lemma {:induction false} ListingInUse(rs: seq<DirEntry>, i: nat)
    requires i <= |rs|
    ensures Listing(rs, i) == InUseNames(rs[i..])
    decreases |rs| - i
  {
    if i == |rs| {
      assert rs[i..] == [];
    } else {
      assert rs[i..][1..] == rs[i + 1..];
      ListingInUse(rs, i + 1);
      if !rs[i].inUse {
        assert NextInUse(rs, i) == NextInUse(rs, i + 1);
      }
    }
  }

  /** A directory's records as dir_add keeps them: every in-use record has
      a name dir_add accepts and no two in-use records share a name. */
  ghost predicate WellNamed(rs: seq<DirEntry>)
  {
    (forall k :: 0 <= k < |rs| && rs[k].inUse ==> ValidName(rs[k].name))
    && forall j, k :: 0 <= j < k < |rs| && rs[j].inUse && rs[k].inUse ==> rs[j].name != rs[k].name
  }

  /** lookup gives the same answer on r as on rs when r only adds records
      at the end and matches name exactly where rs does. */
  lemma {:induction false} FindSame(rs: seq<DirEntry>, r: seq<DirEntry>, name: string)
    requires |rs| <= |r|
    requires forall j :: 0 <= j < |rs| ==> (Names(r[j], name) <==> Names(rs[j], name))
    requires forall j :: |rs| <= j < |r| ==> !Names(r[j], name)
    ensures FindName(r, name) == FindName(rs, name)
  {
    var a, b := FindName(r, name), FindName(rs, name);
    if b >= 0 {
      assert Names(r[b], name);
    }
    if a >= 0 {
      assert Names(rs[a], name);
    }
  }

  /** dir_add's write into the first free slot: lookup then finds the new
      record there, every other name is found where it was, and the
      records stay well named. */
  lemma AddFinds(rs: seq<DirEntry>, name: string, e: DirEntry)
    requires WellNamed(rs) && ValidName(name) && FindName(rs, name) == -1
    requires e.inUse && e.name == name
    ensures var k := FirstFreeSlot(rs);
            var r := PutRecord(rs, k, e);
            FindName(r, name) == k && WellNamed(r)
            && (forall j :: 0 <= j < |rs| && j != k ==> r[j] == rs[j])
            && forall other :: other != name ==> FindName(r, other) == FindName(rs, other)
  {
    var k := FirstFreeSlot(rs);
    var r := PutRecord(rs, k, e);
    AddFound(rs, k, e);
    AddWellNamed(rs, k, e);
    forall other | other != name ensures FindName(r, other) == FindName(rs, other) {
      FindSame(rs, r, other);
    }
  }

  /** The record written into a free slot is the first one of its name. */
  lemma AddFound(rs: seq<DirEntry>, k: nat, e: DirEntry)
    requires k == FirstFreeSlot(rs) && e.inUse && FindName(rs, e.name) == -1
    ensures FindName(PutRecord(rs, k, e), e.name) == k
  {
    var r := PutRecord(rs, k, e);
    assert Names(r[k], e.name);
    assert forall j :: 0 <= j < k ==> r[j] == rs[j];
  }

  /** A fresh valid name written into a free slot keeps the records well
      named. */
  lemma AddWellNamed(rs: seq<DirEntry>, k: nat, e: DirEntry)
    requires WellNamed(rs) && k <= |rs| && (k < |rs| ==> !rs[k].inUse)
    requires e.inUse && ValidName(e.name) && FindName(rs, e.name) == -1
    ensures WellNamed(PutRecord(rs, k, e))
  {
    var r := PutRecord(rs, k, e);
    forall i, j | 0 <= i < j < |r| && r[i].inUse && r[j].inUse ensures r[i].name != r[j].name {
      if i == k {
        assert !Names(rs[j], e.name);
      } else if j == k {
        assert !Names(rs[i], e.name);
      }
    }
  }

  /** dir_remove's clearing of the record lookup found: lookup then finds
      nothing under that name, every other name is found where it was, and
      the records stay well named. */
  lemma RemoveFindsNothing(rs: seq<DirEntry>, name: string)
    requires WellNamed(rs) && FindName(rs, name) >= 0
    ensures var k := FindName(rs, name);
            var r := rs[k := rs[k].(inUse := false)];
            FindName(r, name) == -1 && WellNamed(r)
            && forall other :: other != name ==> FindName(r, other) == FindName(rs, other)
  {
    var k := FindName(rs, name);
    var r := rs[k := rs[k].(inUse := false)];
    forall j | 0 <= j < |r| ensures !Names(r[j], name) {
    }
    forall other | other != name ensures FindName(r, other) == FindName(rs, other) {
      FindSame(rs, r, other);
    }
  }

  /** Every directory file is well named. */
  ghost predicate AllWellNamed(files: map<u32, seq<DirEntry>>)
  {
    forall s :: s in files ==> WellNamed(files[s])
  }

  /** Replacing one file's records by well-named ones keeps them all so. */
  lemma PutWellNamed(files: map<u32, seq<DirEntry>>, s: u32, rs: seq<DirEntry>)
    requires AllWellNamed(files) && WellNamed(rs)
    ensures AllWellNamed(files[s := rs])
  {
  }

  /** Sector x is in use in the free map. */
  predicate InUse(bits: seq<bool>, x: nat)
  {
    x < |bits| && bits[x]
  }

  /** The name space only leads to sectors in use: every in-use entry of a
      file in use names a sector in use, and so does the parent of every
      inode in use. */
  ghost predicate Closed(files: map<u32, seq<DirEntry>>, parents: map<u32, u32>, bits: seq<bool>)
  {
    (forall x, k :: x in files && InUse(bits, x as nat) && 0 <= k < |files[x]| && files[x][k].inUse
       ==> InUse(bits, files[x][k].sector as nat))
    && forall x :: x in parents && InUse(bits, x as nat) ==> InUse(bits, parents[x] as nat)
  }

  /** strtok_r's run: the characters up to the next '/'. */
  function RunLength(s: string): (n: nat)
    ensures n <= |s| && (n < |s| ==> s[n] == '/')
    ensures forall j :: 0 <= j < n ==> s[j] != '/'
  {
    if s == [] || s[0] == '/' then 0
    else
      var n := RunLength(s[1..]);
      assert forall j :: 1 <= j < |s| ==> s[j] == s[1..][j - 1];
      n + 1
  }

  /** The tokens strtok_r (_, "/", _) hands out one by one: the maximal
      non-empty runs of characters other than '/'. */
  function Tokens(s: string): (ts: seq<string>)
    ensures forall t :: t in ts ==> t != "" && '/' !in t
    decreases |s|
  {
    if s == [] then []
    else if s[0] == '/' then Tokens(s[1..])
    else
      var n := RunLength(s);
      [s[..n]] + Tokens(s[n..])
  }

  /** A string of '/' only holds no token. */
  lemma {:induction false} SlashesNoTokens(s: string)
    requires forall j :: 0 <= j < |s| ==> s[j] == '/'
    ensures Tokens(s) == []
    decreases |s|
  {
    if s != [] {
      SlashesNoTokens(s[1..]);
    }
  }

  /** dir_chdir as written calls strlen on the first strtok_r token: a
      null pointer when a non-empty path from an open directory has no
      component. */
  predicate ChdirNullAsWritten(cur: Option<u32>, name: string)
  {
    cur.Some? && name != "" && Tokens(Copy(name)) == []
  }

  /** The path whose components are ts, '/' between them. */
  function Join(ts: seq<string>): string
  {
    if ts == [] then ""
    else if |ts| == 1 then ts[0]
    else ts[0] + "/" + Join(ts[1..])
  }

  /** Splitting a joined path gives back its components. */
  lemma {:induction false} TokensJoin(ts: seq<string>)
    requires forall t :: t in ts ==> t != "" && '/' !in t
    ensures Tokens(Join(ts)) == ts
  {
    if ts != [] {
      assert ts[0] in ts;
      if |ts| == 1 {
        TokensRun(ts[0], "");
        assert Join(ts) == ts[0] + "";
      } else {
        assert forall u :: u in ts[1..] ==> u in ts;
        TokensJoin(ts[1..]);
        TokensJoinCons(ts[0], ts[1..]);
        assert ts == [ts[0]] + ts[1..];
      }
    }
  }

  /** One more component in front of a path that splits back. */
  lemma TokensJoinCons(t: string, rest: seq<string>)
    requires t != "" && '/' !in t && rest != [] && Tokens(Join(rest)) == rest
    ensures Tokens(Join([t] + rest)) == [t] + rest
  {
    assert ([t] + rest)[1..] == rest;
    assert Join([t] + rest) == t + ("/" + Join(rest));
    TokensRun(t, "/" + Join(rest));
    TokensSlash(Join(rest));
  }

  /** A leading '/' holds no token. */
  lemma TokensSlash(s: string)
    ensures Tokens("/" + s) == Tokens(s)
  {
    assert ("/" + s)[1..] == s;
  }

  /** A '/'-free run followed by nothing or a '/' is the first token. */
  lemma TokensRun(t: string, rest: string)
    requires t != "" && '/' !in t && (rest == "" || rest[0] == '/')
    ensures Tokens(t + rest) == [t] + Tokens(rest)
  {
    RunOf(t, rest);
    assert t[0] in t;
    assert (t + rest)[0] == t[0];
  }

  /** A '/'-free run followed by nothing or a '/' is one token's run. */
  lemma {:induction false} RunOf(t: string, rest: string)
    requires t != "" && '/' !in t && (rest == "" || rest[0] == '/')
    ensures RunLength(t + rest) == |t| && (t + rest)[..|t|] == t && (t + rest)[|t|..] == rest
  {
    var s := t + rest;
    if |t| > 1 {
      assert s[1..] == t[1..] + rest;
      RunOf(t[1..], rest);
    } else {
      assert s[1..] == rest;
    }
  }

  /** The copy of a path dir_chdir works on: strlcpy into a page. */
  function Copy(name: string): (c: string)
    ensures |c| == if |name| < PATH_COPY_MAX then |name| else PATH_COPY_MAX
    ensures forall j :: 0 <= j < |c| ==> c[j] == name[j]
  {
    name[..if |name| < PATH_COPY_MAX then |name| else PATH_COPY_MAX]
  }

  /** Every component of a path is short enough for dir_chdir. */
  predicate AllShort(ts: seq<string>)
  {
    forall k :: 0 <= k < |ts| ==> |ts[k]| <= NAME_MAX
  }

  /** The directory entries and inode parents the name space is made of.
      files maps an inode sector to the records of its file, parents to
      the parent sector its inode records; removed holds the inodes
      inode_remove has marked. */
  class Directories {
    var files: map<u32, seq<DirEntry>>
    var parents: map<u32, u32>
    var removed: set<u32>

    /** The records inode_read_at gives for the file at sector s (an inode
        never created reads as length 0). */
    function Records(s: u32): seq<DirEntry>
      reads this
    {
      if s in files then files[s] else []
    }

    /** inode_get_parent of the inode at sector s. */
    function Parent(s: u32): u32
      reads this
    {
      if s in parents then parents[s] else 0
    }

    ghost predicate Valid()
      reads this
    {
      AllWellNamed(files)
    }

    /** An empty name space: no inode created yet. */
    constructor ()
      ensures Valid() && files == map[] && parents == map[] && removed == {}
    {
      files, parents, removed := map[], map[], {};
    }

    /** One step of dir_chdir's walk from directory d: "." stays, ".."
        moves to the parent, a name moves into the directory entry of that
        name, if there is one. */
    function Step(d: u32, c: string): Option<u32>
      reads this
    {
      if c == "." then Some(d)
      else if c == ".." then Some(Parent(d))
      else
        var k := FindName(Records(d), c);
        if k >= 0 && Records(d)[k].isDir then Some(Records(d)[k].sector) else None
    }

    /** The directory reached from d through the components cs. */
    function Resolve(d: u32, cs: seq<string>): Option<u32>
      reads this
    {
      if cs == [] then Some(d)
      else
        match Resolve(d, cs[..|cs| - 1])
        case None => None
        case Some(x) => Step(x, cs[|cs| - 1])
    }

    /** Walking a + b is walking a, then b from where a ended. */
    lemma {:induction false} ResolveAppend(d: u32, a: seq<string>, b: seq<string>)
      ensures Resolve(d, a + b) == match Resolve(d, a) case None => None case Some(x) => Resolve(x, b)
    {
      if b == [] {
        assert a + b == a;
      } else {
        assert (a + b)[..|a + b| - 1] == a + b[..|b| - 1];
        ResolveAppend(d, a, b[..|b| - 1]);
      }
    }

    /** A walk that fails on a prefix fails. */
    lemma NoneStays(d: u32, cs: seq<string>, i: nat)
      requires i <= |cs| && Resolve(d, cs[..i]).None?
      ensures Resolve(d, cs).None?
    {
      ResolveAppend(d, cs[..i], cs[i..]);
      assert cs[..i] + cs[i..] == cs;
    }

    /** Every walk from a sector in use that arrives arrives at a sector in
        use. */
    lemma {:induction false} ResolveInUse(d: u32, cs: seq<string>, bits: seq<bool>)
      requires Closed(files, parents, bits) && InUse(bits, d as nat) && InUse(bits, 0)
      ensures Resolve(d, cs).Some? ==> InUse(bits, Resolve(d, cs).value as nat)
    {
      if cs != [] {
        ResolveInUse(d, cs[..|cs| - 1], bits);
        var r := Resolve(d, cs[..|cs| - 1]);
        if r.Some? {
          var x, c := r.value, cs[|cs| - 1];
          if c != "." && c != ".." {
            var k := FindName(Records(x), c);
            if k >= 0 {
              assert x in files && files[x][k].inUse;
            }
          }
        }
      }
    }

    /** A "." component never changes where a walk ends. */
    lemma DotStays(d: u32, a: seq<string>, b: seq<string>)
      ensures Resolve(d, a + ["."] + b) == Resolve(d, a + b)
    {
      ResolveAppend(d, a + ["."], b);
      ResolveAppend(d, a, b);
      assert (a + ["."])[..|a + ["."]| - 1] == a;
    }

    /** dir_create gives every directory it makes, the root included,
        parent 0. As written, ".." at the root therefore reaches sector 0,
        the free map's inode, and a path "../x" from the root looks for x
        among the records of the free map's file. */
    lemma UpFromRootAsWritten(x: string)
      requires Parent(ROOT_DIR_SECTOR as u32) == FREE_MAP_SECTOR as u32
      requires x != "" && '/' !in x && |x| <= NAME_MAX
      ensures Looked(ROOT_DIR_SECTOR as u32, "..") == Some((FREE_MAP_SECTOR as u32, true))
      ensures Target(Some(ROOT_DIR_SECTOR as u32), "../" + x) == Some((FREE_MAP_SECTOR as u32, x))
    {
      UpOneTarget(x);
    }

    /** With the root its own parent, "../x" from the root names x in the
        root. */
    lemma UpFromRoot(x: string)
      requires Parent(ROOT_DIR_SECTOR as u32) == ROOT_DIR_SECTOR as u32
      requires x != "" && '/' !in x && |x| <= NAME_MAX
      ensures Looked(ROOT_DIR_SECTOR as u32, "..") == Some((ROOT_DIR_SECTOR as u32, true))
      ensures Target(Some(ROOT_DIR_SECTOR as u32), "../" + x) == Some((ROOT_DIR_SECTOR as u32, x))
    {
      UpOneTarget(x);
    }

    /** "../x" from the root ends at the root's parent, with x left. */
    lemma UpOneTarget(x: string)
      requires x != "" && '/' !in x && |x| <= NAME_MAX
      ensures Target(Some(ROOT_DIR_SECTOR as u32), "../" + x) == Some((Parent(ROOT_DIR_SECTOR as u32), x))
    {
      var ts := ["..", x];
      assert Join(ts) == "../" + x;
      TokensJoin(ts);
      assert Copy("../" + x) == "../" + x;
      assert ts[..1] == [".."];
      assert Resolve(ROOT_DIR_SECTOR as u32, [".."]) == Step(ROOT_DIR_SECTOR as u32, "..");
    }

    /** With the root its own parent, any number of ".." components from
        the root stay at the root. */
    lemma {:induction false} UpStays(n: nat)
      requires Parent(ROOT_DIR_SECTOR as u32) == ROOT_DIR_SECTOR as u32
      ensures Resolve(ROOT_DIR_SECTOR as u32, seq(n, _ => "..")) == Some(ROOT_DIR_SECTOR as u32)
    {
      if n > 0 {
        UpStays(n - 1);
        assert seq(n, _ => "..")[..n - 1] == seq(n - 1, _ => "..");
      }
    }

    /** A path made only of '/' has no component: strtok_r gives null at
        once, and dir_chdir as written hands that null to strlen. The
        modelled walk fails there instead. */
    lemma SlashesOnly(cur: u32, name: string)
      requires name != "" && forall j :: 0 <= j < |name| ==> name[j] == '/'
      ensures ChdirNullAsWritten(Some(cur), name)
      ensures Target(Some(cur), name) == None
    {
      SlashesNoTokens(Copy(name));
    }

    /** The scan of lookup: the first in-use record named name, with its
        byte offset. */
    method Lookup(dir: u32, name: string) returns (found: bool, e: DirEntry, ofs: nat)
      ensures found <==> FindName(Records(dir), name) >= 0
      ensures found ==> e == Records(dir)[FindName(Records(dir), name)]
                        && ofs == FindName(Records(dir), name) * ENTRY_SIZE
    {
      var rs := Records(dir);
      ofs := 0;
      while ofs / ENTRY_SIZE < |rs|
        invariant ofs % ENTRY_SIZE == 0 && ofs / ENTRY_SIZE <= |rs|
        invariant forall j :: 0 <= j < ofs / ENTRY_SIZE ==> !Names(rs[j], name)
        decreases |rs| - ofs / ENTRY_SIZE
      {
        e := rs[ofs / ENTRY_SIZE];
        if e.inUse && e.name == name {
          return true, e, ofs;
        }
        ofs := ofs + ENTRY_SIZE;
      }
      return false, BLANK, 0;
    }

    /** What dir_lookup (dir, name) obtains: the sector of the inode and
        whether it is a directory, or None. */
    function Looked(dir: u32, name: string): Option<(u32, bool)>
      reads this
    {
      if name == ".." then Some((Parent(dir), true))
      else if name == "." then (if dir in removed then None else Some((dir, true)))
      else
        var k := FindName(Records(dir), name);
        if k >= 0 then Some((Records(dir)[k].sector, Records(dir)[k].isDir)) else None
    }

    /** dir_lookup: ".." opens the parent, "." reopens the directory
        itself (which gives null once it is removed), both as directories;
        any other name opens the target of the in-use entry of that name,
        and nothing is obtained when there is none. */
    method DirLookup(dir: u32, name: string) returns (r: Option<(u32, bool)>)
      ensures r == Looked(dir, name)
      ensures name != ".." && name != "." ==>
                (r.Some? <==> exists k :: 0 <= k < |Records(dir)| && Names(Records(dir)[k], name))
      ensures r.Some? && name != ".." && name != "." ==>
                exists k :: 0 <= k < |Records(dir)| && Names(Records(dir)[k], name)
                            && r.value == (Records(dir)[k].sector, Records(dir)[k].isDir)
    {
      if name == ".." {
        r := Some((Parent(dir), true));
      } else if name == "." {
        r := if dir in removed then None else Some((dir, true));
      } else {
        var found, e, _ := Lookup(dir, name);
        r := if found then Some((e.sector, e.isDir)) else None;
      }
    }

    /** dir_open_cur: the root when the thread has no directory, else a
        reopening of its directory, which gives null once that is
        removed. */
    function OpenCur(cwd: Option<u32>): (r: Option<u32>)
      reads this
      ensures r.None? <==> cwd.Some? && cwd.value in removed
    {
      if cwd.None? then Some(ROOT_DIR_SECTOR as u32)
      else if cwd.value in removed then None
      else cwd
    }

    /** dir_open: a handle on a non-null inode with its cursor at the
        start; null for a null inode. */
    method OpenDir(h: Option<u32>) returns (d: Dir?)
      ensures h.None? <==> d == null
      ensures d != null ==> fresh(d) && d.inode == h.value && d.pos == 0
    {
      if h.None? {
        return null;
      }
      d := new Dir(h.value);
    }

    /** dir_reopen: a new handle on the same inode, null once that inode is
        removed. */
    method ReopenDir(dir: Dir) returns (d: Dir?)
      ensures d == null <==> dir.inode in removed
      ensures d != null ==> fresh(d) && d.inode == dir.inode && d.pos == 0
    {
      var h := if dir.inode in removed then None else Some(dir.inode);
      d := OpenDir(h);
    }

    /** inode_create (sector, length, parent) as this layer sees it: the
        file at sector reads as length / ENTRY_SIZE blank records and
        records parent. */
    method CreateInode(sector: u32, length: nat, parent: u32)
      requires Valid()
      modifies this
      ensures Valid() && removed == old(removed)
      ensures files == old(files)[sector := Blank(length / ENTRY_SIZE)]
      ensures parents == old(parents)[sector := parent]
    {
      PutWellNamed(files, sector, Blank(length / ENTRY_SIZE));
      files := files[sector := Blank(length / ENTRY_SIZE)];
      parents := parents[sector := parent];
    }

    /** dir_create: a directory with room for entryCnt entries, whose
        parent is sector 0. */
    method Create(sector: u32, entryCnt: nat) returns (success: bool)
      requires Valid()
      modifies this
      ensures Valid() && success && removed == old(removed)
      ensures files == old(files)[sector := Blank(entryCnt)] && parents == old(parents)[sector := 0]
    {
      CreateInode(sector, entryCnt * ENTRY_SIZE, 0);
      assert entryCnt * ENTRY_SIZE / ENTRY_SIZE == entryCnt;
      success := true;
    }

    /** dir_add: refuses a name that is empty, longer than NAME_MAX, "." or
        "..", and a name already in use; otherwise writes an in-use record
        into the first free slot, or at the end. written says whether
        inode_write_at wrote the whole record. */
    method Add(dir: u32, name: string, sector: u32, isDir: bool, written: bool) returns (success: bool)
      requires Valid()
      modifies this
      ensures Valid() && parents == old(parents) && removed == old(removed)
      ensures success <==> ValidName(name) && FindName(old(Records(dir)), name) == -1 && written
      ensures success ==> files == old(files)[dir := PutRecord(old(Records(dir)), FirstFreeSlot(old(Records(dir))),
                                                                DirEntry(sector, name, true, isDir))]
      ensures !success ==> files == old(files)
    {
      if name == "" || |name| > NAME_MAX || name == ".." || name == "." {
        return false;
      }
      var found, _, _ := Lookup(dir, name);
      if found {
        return false;
      }
      var rs := Records(dir);
      var ofs := 0;
      while ofs / ENTRY_SIZE < |rs| && rs[ofs / ENTRY_SIZE].inUse
        invariant ofs % ENTRY_SIZE == 0 && ofs / ENTRY_SIZE <= |rs|
        invariant forall j :: 0 <= j < ofs / ENTRY_SIZE ==> rs[j].inUse
        decreases |rs| - ofs / ENTRY_SIZE
      {
        ofs := ofs + ENTRY_SIZE;
      }
      assert ofs / ENTRY_SIZE == FirstFreeSlot(rs);
      if !written {
        return false;
      }
      var e := DirEntry(sector, name, true, isDir);
      AddFinds(rs, name, e);
      PutWellNamed(files, dir, PutRecord(rs, ofs / ENTRY_SIZE, e));
      files := files[dir := PutRecord(rs, ofs / ENTRY_SIZE, e)];
      success := true;
    }

    /** dir_readdir: moves the cursor past records until one is in use and
        gives its name; false at the end of the file. */
    method ReadDir(d: Dir) returns (success: bool, name: string)
      requires d.pos % ENTRY_SIZE == 0
      modifies d
      ensures d.pos % ENTRY_SIZE == 0 && d.pos >= old(d.pos)
      ensures var k := NextInUse(Records(d.inode), old(d.pos) / ENTRY_SIZE);
              (success <==> k >= 0)
              && (success ==> name == Records(d.inode)[k].name && d.pos == (k + 1) * ENTRY_SIZE)
              && (!success ==> d.pos / ENTRY_SIZE == if old(d.pos) / ENTRY_SIZE < |Records(d.inode)|
                                                    then |Records(d.inode)| else old(d.pos) / ENTRY_SIZE)
    {
      var rs := Records(d.inode);
      ghost var i0 := d.pos / ENTRY_SIZE;
      while d.pos / ENTRY_SIZE < |rs|
        invariant d.pos % ENTRY_SIZE == 0 && d.pos >= old(d.pos)
        invariant i0 <= d.pos / ENTRY_SIZE && (i0 < |rs| ==> d.pos / ENTRY_SIZE <= |rs|)
        invariant i0 >= |rs| ==> d.pos == old(d.pos)
        invariant forall j :: i0 <= j < d.pos / ENTRY_SIZE && j < |rs| ==> !rs[j].inUse
        decreases |rs| - d.pos / ENTRY_SIZE
      {
        var e := rs[d.pos / ENTRY_SIZE];
        d.pos := d.pos + ENTRY_SIZE;
        if e.inUse {
          return true, e.name;
        }
      }
      return false, "";
    }

    /** Whether dir_remove (dir, name) may clear the entry: the name is
        not "/", it is in use, and a directory it names has no in-use
        entry. */
    function Removable(dir: u32, name: string): bool
      reads this
    {
      var rs := Records(dir);
      var k := FindName(rs, name);
      name != "/" && k >= 0 && !(rs[k].isDir && NextInUse(Records(rs[k].sector), 0) >= 0)
    }

    /** dir_remove: refuses "/", a missing name and a directory that still
        has an in-use entry; otherwise clears the record and marks the
        target inode removed. written says whether inode_write_at wrote the
        whole record. */
    method Remove(dir: u32, name: string, written: bool) returns (success: bool)
      requires Valid()
      modifies this
      ensures Valid() && parents == old(parents)
      ensures success <==> old(Removable(dir, name)) && written
      ensures var rs := old(Records(dir));
              var k := FindName(rs, name);
              success ==> files == old(files)[dir := rs[k := rs[k].(inUse := false)]]
                          && removed == old(removed) + {rs[k].sector}
                          && FindName(Records(dir), name) == -1
      ensures !success ==> files == old(files) && removed == old(removed)
    {
      if name == "/" {
        return false;
      }
      var found, e, _ := Lookup(dir, name);
      if !found {
        return false;
      }
      if e.isDir {
        var edir := new Dir(e.sector);
        var any, _ := ReadDir(edir);
        if any {
          return false;
        }
      }
      if !written {
        return false;
      }
      Clear(dir, name);
      success := true;
    }

    /** The update dir_remove makes once its checks pass: the record of
        name is marked free, and the inode it named is marked removed. */
    method Clear(dir: u32, name: string)
      requires Valid() && FindName(Records(dir), name) >= 0
      modifies this
      ensures Valid() && parents == old(parents)
      ensures var rs := old(Records(dir));
              var k := FindName(rs, name);
              files == old(files)[dir := rs[k := rs[k].(inUse := false)]]
              && removed == old(removed) + {rs[k].sector}
              && FindName(Records(dir), name) == -1
    {
      var rs := Records(dir);
      var k := FindName(rs, name);
      RemoveFindsNothing(rs, name);
      PutWellNamed(files, dir, rs[k := rs[k].(inUse := false)]);
      files := files[dir := rs[k := rs[k].(inUse := false)]];
      removed := removed + {rs[k].sector};
    }

    /** Where dir_chdir (cur, name) ends: the directory before the last
        component of name and that component, or None when the walk
        fails. */
    function Target(cur: Option<u32>, name: string): Option<(u32, string)>
      reads this
    {
      if cur.None? || name == "" then None
      else
        var copy := Copy(name);
        var start := if copy[0] == '/' then ROOT_DIR_SECTOR as u32 else cur.value;
        var ts := Tokens(copy);
        if ts != [] && AllShort(ts) && Resolve(start, ts[..|ts| - 1]).Some?
        then Some((Resolve(start, ts[..|ts| - 1]).value, ts[|ts| - 1]))
        else None
    }

    /** A path starting with '/' ends at the same place from any current
        directory. */
    lemma AbsoluteTarget(c1: u32, c2: u32, name: string)
      requires name != "" && name[0] == '/'
      ensures Target(Some(c1), name) == Target(Some(c2), name)
    {
      assert Copy(name)[0] == '/';
    }

    /** One pass of dir_chdir's loop on component c at directory d. */
    method StepDir(d: u32, c: string) returns (next: Option<u32>)
      ensures next == Step(d, c)
    {
      if c == "." {
        next := Some(d);
      } else if c == ".." {
        next := Some(Parent(d));
      } else {
        var found, e, _ := Lookup(d, c);
        next := if found && e.inUse && e.isDir then Some(e.sector) else None;
      }
    }

    /** dir_chdir's loop over the components ts from start: stops at the
        last component (going), at a component longer than NAME_MAX, or at
        one that leads nowhere. */
    method Walk(start: u32, ts: seq<string>) returns (going: bool, d: u32, i: nat)
      requires ts != [] && |ts[0]| <= NAME_MAX
      ensures i < |ts|
      ensures going ==> i + 1 == |ts| && AllShort(ts) && Resolve(start, ts[..i]) == Some(d)
      ensures !going ==> !AllShort(ts) || Resolve(start, ts[..|ts| - 1]).None?
    {
      d, i, going := start, 0, true;
      while going && i + 1 < |ts|
        invariant i < |ts| && AllShort(ts[..i + 1])
        invariant going ==> Resolve(start, ts[..i]) == Some(d)
        invariant !going ==> !AllShort(ts) || Resolve(start, ts[..|ts| - 1]).None?
        decreases |ts| - i, going
      {
        if |ts[i + 1]| > NAME_MAX {
          going := false;
        } else {
          assert ts[..i + 1][..i] == ts[..i];
          var next := StepDir(d, ts[i]);
          if next.None? {
            going := false;
            assert ts[..|ts| - 1][..i + 1] == ts[..i + 1];
            NoneStays(start, ts[..|ts| - 1], i + 1);
          } else {
            d := next.value;
            assert ts[..i + 2][..i + 1] == ts[..i + 1];
            i := i + 1;
          }
        }
      }
      if going {
        assert ts[..i + 1] == ts;
      }
    }

    /** dir_chdir: walks the '/'-separated path name (its first
        PATH_COPY_MAX characters) from cur, or from the root when it starts
        with '/', and stops one component short. On success the last
        component is filename and dir is where the walk before it ended;
        every component must be at most NAME_MAX long and every one before
        the last must lead to a directory. */
    method ChangeDir(cur: Option<u32>, name: string) returns (success: bool, dir: Option<u32>, filename: string)
      ensures cur.None? || name == "" ==> !success && dir == cur
      ensures success <==> Target(cur, name).Some?
      ensures success ==> dir == Some(Target(cur, name).value.0) && filename == Target(cur, name).value.1
      ensures success ==> ValidLength(filename)
    {
      if cur.None? || |name| == 0 {
        return false, cur, "";
      }
      var copy := Copy(name);
      var d: u32 := if copy[0] == '/' then ROOT_DIR_SECTOR as u32 else cur.value;
      var ts := Tokens(copy);
      success, filename := false, "";
      if ts == [] || |ts[0]| > NAME_MAX {
        return false, cur, "";
      }
      var going, i;
      going, d, i := Walk(d, ts);
      if going {
        filename := ts[i];
        assert filename in ts;
        success := true;
      }
      ghost var t := Target(cur, name);
      if !success {
        assert t.None?;
      }
      dir := Some(d);
    }
  }

  /** A component a directory entry can be named by, length-wise. */
  predicate ValidLength(name: string)
  {
    name != "" && |name| <= NAME_MAX
  }

  /** What dir_chdir does with the caller's directory handle: whether it
      has closed it, and whether *dir still names it on return, so that
      the caller's dir_close (dir) closes it once more. */
  datatype HandleExit = HandleExit(closed: bool, kept: bool)

  /** How many times the caller's handle is closed by dir_chdir and the
      dir_close (dir) that follows it in filesys_create and filesys_remove. */
  function CallerCloses(h: HandleExit): nat
  {
    (if h.closed then 1 else 0) + (if h.kept then 1 else 0)
  }

  /** dir_chdir's handling of the caller's handle as written (moved says
      whether the walk of a relative path left the caller's directory). An
      absolute path closes the caller's handle at once; the return for a
      first component longer than NAME_MAX then leaves *dir naming it. A
      path with no component is the null dereference of
      ChdirNullAsWritten and is not told apart here. */
  function ChdirHandleAsWritten(name: string, moved: bool): (h: HandleExit)
    ensures 1 <= CallerCloses(h) <= 2
    ensures name == "" ==> !h.closed && h.kept
  {
    if name == "" then HandleExit(false, true)
    else
      var copy := Copy(name);
      var absolute := copy[0] == '/';
      var ts := Tokens(copy);
      if ts != [] && |ts[0]| > NAME_MAX then HandleExit(absolute, true)
      else HandleExit(absolute || moved, !(absolute || moved))
  }

  /** dir_chdir storing the handle it holds in *dir on every return after
      the path is copied: the caller's handle is then closed exactly once. */
  function ChdirHandle(name: string, moved: bool): (h: HandleExit)
    ensures CallerCloses(h) == 1
    ensures h.kept <==> !h.closed
  {
    if name == "" then HandleExit(false, true)
    else
      var copy := Copy(name);
      var absolute := copy[0] == '/';
      var ts := Tokens(copy);
      if ts != [] && |ts[0]| > NAME_MAX then HandleExit(absolute, !absolute)
      else HandleExit(absolute || moved, !(absolute || moved))
  }

  /** The two differ exactly on an absolute path whose first component is
      too long, where the code as written closes the caller's handle twice. */
  lemma ChdirHandleDiffers(name: string, moved: bool)
    ensures ChdirHandle(name, moved) != ChdirHandleAsWritten(name, moved) <==>
              name != "" && Copy(name)[0] == '/' && Tokens(Copy(name)) != [] && |Tokens(Copy(name))[0]| > NAME_MAX
    ensures ChdirHandle(name, moved) != ChdirHandleAsWritten(name, moved) ==>
              CallerCloses(ChdirHandleAsWritten(name, moved)) == 2
  {
  }

  /** filesys_create ("/" + x) or filesys_remove ("/" + x) with a component
      x longer than NAME_MAX closes the caller's directory handle twice. */
  lemma CloseTwice(x: string)
    requires x != "" && '/' !in x && NAME_MAX < |x| < PATH_COPY_MAX - 1
    ensures CallerCloses(ChdirHandleAsWritten("/" + x, false)) == 2
  {
    var name := "/" + x;
    assert Copy(name) == name;
    TokensJoin([x]);
    assert Join([x]) == x;
    assert name[1..] == x;
  }

  /** struct dir: the inode sector of a directory and dir_readdir's cursor
      (a byte offset). */
  class Dir {
    const inode: u32
    var pos: nat

    /** dir_open of a non-null inode: the cursor at the start. */
    constructor (inode: u32)
      ensures this.inode == inode && pos == 0
    {
      this.inode := inode;
      pos := 0;
    }
  }
}
