/** The pure rules and the loops of the program loader in
    src/userprog/process.c: the ELF executable-header check, program-header
    dispatch and validate_segment, the read/zero split of a loadable segment,
    the load_segment page loop, get_title and the argument stack built by
    pass_argument. The header layouts are those of the Tool Interface
    Standard ELF specification v1.2, Book I ("ELF Header", pp. 1-4 to 1-8;
    "Program Header", pp. 2-2 to 2-4), for 32-bit little-endian files. */
module Loader {
  import opened Bytes
  import opened Options

  const PGSIZE: nat := 4096
  /** Base of kernel virtual memory; user addresses lie below it. */
  const PHYS_BASE: nat := 0xC000_0000
  const U32_LIMIT: nat := 0x1_0000_0000

  /** sizeof (struct Elf32_Ehdr) and sizeof (struct Elf32_Phdr). */
  const EHDR_SIZE: nat := 52
  const PHDR_SIZE: nat := 32

  /** p_type values (ELF Book I, p. 2-3). */
  const PT_LOAD: nat := 1
  const PT_DYNAMIC: nat := 2
  const PT_INTERP: nat := 3
  const PT_SHLIB: nat := 5
  /** p_flags bit for a writable segment. */
  const PF_W: nat := 2

  /** Little-endian 16- and 32-bit fields at a byte offset. */
  function Half(b: seq<byte>, at: nat): nat
    requires at + 2 <= |b|
  {
    b[at] as nat + 256 * b[at + 1] as nat
  }

  function Full(b: seq<byte>, at: nat): u32
    requires at + 4 <= |b|
  {
    b[at] as int + 256 * b[at + 1] as int + 65536 * b[at + 2] as int + 16777216 * b[at + 3] as int
  }

  /** The first seven bytes of e_ident that load insists on: the magic
      "\177ELF", ELFCLASS32, ELFDATA2LSB and EV_CURRENT. */
  const ELF_IDENT: seq<byte> := [0x7f, 0x45, 0x4c, 0x46, 1, 1, 1]

  /** The executable-header test in load: b is what file_read returned for a
      request of sizeof ehdr bytes. */
  predicate HeaderAccepted(b: seq<byte>)
  {
    |b| == EHDR_SIZE
    && b[..7] == ELF_IDENT
    && Half(b, 16) == 2          // e_type: ET_EXEC
    && Half(b, 18) == 3          // e_machine: EM_386
    && Full(b, 20) == 1          // e_version: EV_CURRENT
    && Half(b, 42) == PHDR_SIZE  // e_phentsize
    && Half(b, 44) <= 1024       // e_phnum
  }

  /** The fields of an executable header, for building one. */
  datatype Ehdr = Ehdr(ident: seq<byte>, etype: nat, machine: nat, version: u32, entry: u32,
                       phoff: u32, shoff: u32, flags: u32, ehsize: nat, phentsize: nat,
                       phnum: nat, shentsize: nat, shnum: nat, shstrndx: nat)

  ghost predicate WellSized(h: Ehdr)
  {
    |h.ident| == 16 && h.etype < 65536 && h.machine < 65536 && h.ehsize < 65536
    && h.phentsize < 65536 && h.phnum < 65536 && h.shentsize < 65536 && h.shnum < 65536
    && h.shstrndx < 65536
  }

  function HalfBytes(v: nat): seq<byte>
    requires v < 65536
  {
    [(v % 256) as byte, (v / 256) as byte]
  }

  /** The 52 bytes of struct Elf32_Ehdr as they lie in the file. */
  function EncodeEhdr(h: Ehdr): (b: seq<byte>)
    requires WellSized(h)
    ensures |b| == EHDR_SIZE
  {
    h.ident + HalfBytes(h.etype) + HalfBytes(h.machine) + Encode([h.version, h.entry, h.phoff, h.shoff, h.flags])
    + HalfBytes(h.ehsize) + HalfBytes(h.phentsize) + HalfBytes(h.phnum)
    + HalfBytes(h.shentsize) + HalfBytes(h.shnum) + HalfBytes(h.shstrndx)
  }

  /** load accepts the bytes of a header exactly when the header is a
      version-1, 32-bit, little-endian i386 executable with 32-byte program
      headers and at most 1024 of them. */
  lemma HeaderAcceptedIff(h: Ehdr)
    requires WellSized(h)
    ensures HeaderAccepted(EncodeEhdr(h)) <==>
              h.ident[..7] == ELF_IDENT && h.etype == 2 && h.machine == 3 && h.version == 1
              && h.phentsize == PHDR_SIZE && h.phnum <= 1024
  {
    var b := EncodeEhdr(h);
    assert b[..7] == h.ident[..7];
    assert Half(b, 16) == h.etype;
    assert Half(b, 18) == h.machine;
    var ws := Encode([h.version, h.entry, h.phoff, h.shoff, h.flags]);
    assert b[20..24] == ws[0..4];
    WordOfEncode([h.version, h.entry, h.phoff, h.shoff, h.flags], 0);
    assert Full(b, 20) == Word(ws, 0);
    assert Half(b, 42) == h.phentsize;
    assert Half(b, 44) == h.phnum;
  }

  /** A program header (struct Elf32_Phdr). */
  datatype Phdr = Phdr(ptype: u32, offset: u32, vaddr: u32, paddr: u32,
                       filesz: u32, memsz: u32, flags: u32, align: u32)

  /** The eight words of a program header in file order. */
  function Fields(p: Phdr): seq<u32>
  {
    [p.ptype, p.offset, p.vaddr, p.paddr, p.filesz, p.memsz, p.flags, p.align]
  }

  /** The program header file_read fills from the 32 bytes at its offset:
      its fields are the little-endian words of those bytes in order. */
  function DecodePhdr(b: seq<byte>): (p: Phdr)
    requires |b| == PHDR_SIZE
    ensures Fields(p) == Decode(b)
  {
    Phdr(Word(b, 0), Word(b, 1), Word(b, 2), Word(b, 3), Word(b, 4), Word(b, 5), Word(b, 6), Word(b, 7))
  }

  /** Reading back the bytes of a program header gives the header, and
      the bytes of what is read are the bytes read. */
  lemma PhdrRoundTrip(p: Phdr, b: seq<byte>)
    requires |b| == PHDR_SIZE
    ensures DecodePhdr(Encode(Fields(p))) == p
    ensures Encode(Fields(DecodePhdr(b))) == b
  {
    DecodeEncode(Fields(p));
    var q := DecodePhdr(Encode(Fields(p)));
    assert Fields(q) == Fields(p);
    EncodeDecode(b);
  }

  /** validate_segment, with the source's 32-bit address arithmetic. */
  predicate ValidateSegment(p: Phdr, fileLength: nat)
  {
    var end := (p.vaddr + p.memsz) % U32_LIMIT;
    p.offset % PGSIZE == p.vaddr % PGSIZE
    && p.offset <= fileLength
    && p.memsz >= p.filesz
    && p.memsz != 0
    && p.vaddr < PHYS_BASE
    && end < PHYS_BASE
    && !(end < p.vaddr)
    && p.vaddr >= PGSIZE
  }

  /** validate_segment accepts exactly the segments that start and end in
      user space above page 0 (computed without wrap-around), are not empty,
      have at least as much memory as file data, start within the file and
      share their page offset between file and memory. */
  lemma ValidateSegmentIff(p: Phdr, fileLength: nat)
    ensures ValidateSegment(p, fileLength) <==>
              p.offset % PGSIZE == p.vaddr % PGSIZE && p.offset <= fileLength
              && 0 < p.memsz && p.filesz <= p.memsz
              && PGSIZE <= p.vaddr && p.vaddr + p.memsz < PHYS_BASE
  {
    if p.vaddr + p.memsz >= U32_LIMIT {
      assert (p.vaddr + p.memsz) % U32_LIMIT == p.vaddr + p.memsz - U32_LIMIT;
    } else {
      assert (p.vaddr + p.memsz) % U32_LIMIT == p.vaddr + p.memsz;
    }
  }

  /** How load_segment is to fill a loadable segment. */
  datatype Segment = Segment(filePage: nat, memPage: nat, readBytes: nat, zeroBytes: nat, writable: bool)

  /** What load does with one program header. */
  datatype Action = Ignore | Fail | Load(seg: Segment)

  /** ROUND_UP (x, PGSIZE). */
  function PageRoundUp(x: nat): (r: nat)
    ensures x <= r < x + PGSIZE && r % PGSIZE == 0
  {
    (x + PGSIZE - 1) / PGSIZE * PGSIZE
  }

  /** The read/zero split of a PT_LOAD segment (process.c, the PT_LOAD case of load). */
  function Split(p: Phdr): Segment
    requires p.filesz <= p.memsz
  {
    var pageOffset := p.vaddr % PGSIZE;
    var readBytes := if p.filesz > 0 then pageOffset + p.filesz else 0;
    Segment(p.offset - p.offset % PGSIZE, p.vaddr - pageOffset, readBytes,
            PageRoundUp(pageOffset + p.memsz) - readBytes, (p.flags / PF_W) % 2 == 1)
  }

  function Dispatch(p: Phdr, fileLength: nat): Action
  {
    if p.ptype == PT_DYNAMIC || p.ptype == PT_INTERP || p.ptype == PT_SHLIB then Fail
    else if p.ptype != PT_LOAD then Ignore
    else if !ValidateSegment(p, fileLength) then Fail
    else Load(Split(p))
  }

  /** What load_segment's assertions require of a split, and that the pages
      it fills are exactly the ones covering the segment, all in user space
      above page 0; no 32-bit quantity of the split wraps around. */
  lemma SplitSound(p: Phdr, fileLength: nat)
    requires ValidateSegment(p, fileLength)
    ensures var s := Split(p);
      (s.readBytes + s.zeroBytes) % PGSIZE == 0
      && s.memPage % PGSIZE == 0 && s.filePage % PGSIZE == 0
      && s.readBytes <= s.readBytes + s.zeroBytes
      && (p.filesz == 0 ==> s.readBytes == 0)
      && s.memPage + p.vaddr % PGSIZE + p.memsz <= s.memPage + s.readBytes + s.zeroBytes
      && s.memPage + s.readBytes + s.zeroBytes - PGSIZE < s.memPage + p.vaddr % PGSIZE + p.memsz
      && PGSIZE <= s.memPage && s.memPage + s.readBytes + s.zeroBytes <= PHYS_BASE
      && s.readBytes + s.zeroBytes < U32_LIMIT
  {
    ValidateSegmentIff(p, fileLength);
    var po := p.vaddr % PGSIZE;
    var x := po + p.memsz;
    var q := (x + PGSIZE - 1) / PGSIZE;
    assert q * PGSIZE <= x + PGSIZE - 1 < q * PGSIZE + PGSIZE;
    var mp := p.vaddr - po;
    assert mp == p.vaddr / PGSIZE * PGSIZE;
    // PHYS_BASE is page aligned and the segment ends below it.
    assert mp + x < PHYS_BASE;
    assert (mp / PGSIZE) * PGSIZE == mp;
    assert mp + q * PGSIZE <= PHYS_BASE by {
      var pb := PHYS_BASE / PGSIZE;
      assert pb * PGSIZE == PHYS_BASE;
      assert mp / PGSIZE + q <= pb;
    }
  }

  /** The loop in load over the program headers, once they are read: the
      loadable segments in order, or None as soon as one header makes
      loading fail. (Reading the headers from the file is not modelled.) */
  function Plan(ps: seq<Phdr>, fileLength: nat): Option<seq<Segment>>
  {
    if ps == [] then Some([])
    else match Dispatch(ps[0], fileLength)
      case Fail => None
      case Ignore => Plan(ps[1..], fileLength)
      case Load(s) => var rest := Plan(ps[1..], fileLength);
                      if rest.None? then None else Some([s] + rest.value)
  }

  /** Loading fails exactly when some header is dynamic, an interpreter
      request, PT_SHLIB, or a PT_LOAD that validate_segment rejects. */
  lemma {:induction false} PlanFailsIff(ps: seq<Phdr>, fileLength: nat)
    ensures Plan(ps, fileLength).None? <==> exists i :: 0 <= i < |ps| && Dispatch(ps[i], fileLength) == Fail
  {
    if ps != [] {
      PlanFailsIff(ps[1..], fileLength);
      if Dispatch(ps[0], fileLength) != Fail {
        if i :| 0 <= i < |ps| && Dispatch(ps[i], fileLength) == Fail {
          assert Dispatch(ps[1..][i - 1], fileLength) == Fail;
        }
      }
      if j :| 0 <= j < |ps| - 1 && Dispatch(ps[1..][j], fileLength) == Fail {
        assert Dispatch(ps[j + 1], fileLength) == Fail;
      }
    }
  }

  lemma DivideWhole(n: nat)
    ensures n * PGSIZE / PGSIZE == n
  {
  }

  /** One page that load_segment fills: from which file offset, how many
      bytes it reads, how many it zeroes. */
  datatype PageFill = PageFill(upage: nat, fileOfs: nat, readBytes: nat, zeroBytes: nat)

  /** The bytes read into page k of a segment with readBytes file bytes. */
  function PageRead(readBytes: nat, k: nat): nat
  {
    if readBytes >= (k + 1) * PGSIZE then PGSIZE
    else if readBytes > k * PGSIZE then readBytes - k * PGSIZE
    else 0
  }

  /** load_segment's loop (allocation, read and install failures not
      modelled): one page per iteration, each reading the lesser of what is
      left and a page, zeroing the rest of it, advancing upage a page. */
  method LoadSegment(ofs: nat, upage: nat, readBytes: nat, zeroBytes: nat) returns (pages: seq<PageFill>)
    requires (readBytes + zeroBytes) % PGSIZE == 0
    requires upage % PGSIZE == 0 && ofs % PGSIZE == 0
    ensures |pages| == (readBytes + zeroBytes) / PGSIZE
    ensures forall k :: 0 <= k < |pages| ==>
              pages[k] == PageFill(upage + k * PGSIZE, ofs + k * PGSIZE,
                                   PageRead(readBytes, k), PGSIZE - PageRead(readBytes, k))
  {
    var read: nat, zero: nat, page: nat := readBytes, zeroBytes, upage;
    pages := [];
    while read > 0 || zero > 0
      invariant (read + zero) % PGSIZE == 0
      invariant read + zero + |pages| * PGSIZE == readBytes + zeroBytes
      invariant page == upage + |pages| * PGSIZE
      invariant read == if readBytes >= |pages| * PGSIZE then readBytes - |pages| * PGSIZE else 0
      invariant forall k :: 0 <= k < |pages| ==>
                  pages[k] == PageFill(upage + k * PGSIZE, ofs + k * PGSIZE,
                                       PageRead(readBytes, k), PGSIZE - PageRead(readBytes, k))
      decreases read + zero
    {
      var pageRead := if read < PGSIZE then read else PGSIZE;
      var pageZero := PGSIZE - pageRead;
      assert pageRead == PageRead(readBytes, |pages|);
      pages := pages + [PageFill(page, ofs + |pages| * PGSIZE, pageRead, pageZero)];
      read := read - pageRead;
      zero := zero - pageZero;
      page := page + PGSIZE;
    }
    assert readBytes + zeroBytes == |pages| * PGSIZE;
    DivideWhole(|pages|);
  }

  /** The space character strtok_r splits on. */
  const SPACE: byte := 32

  /** Leading spaces of s. */
  function LeadingSpaces(s: seq<byte>): (n: nat)
    ensures n <= |s|
    ensures forall i :: 0 <= i < n ==> s[i] == SPACE
    ensures n < |s| ==> s[n] != SPACE
  {
    if s == [] || s[0] != SPACE then 0 else 1 + LeadingSpaces(s[1..])
  }

  /** Length of the run of non-space bytes at the start of s. */
  function RunLength(s: seq<byte>): (n: nat)
    ensures n <= |s|
    ensures forall i :: 0 <= i < n ==> s[i] != SPACE
    ensures n < |s| ==> s[n] == SPACE
  {
    if s == [] || s[0] == SPACE then 0 else 1 + RunLength(s[1..])
  }

  /** The tokens that repeated strtok_r (..., " ", ...) calls return. */
  function Tokens(s: seq<byte>): seq<seq<byte>>
    decreases |s|
  {
    if s == [] then []
    else if s[0] == SPACE then Tokens(s[1..])
    else [s[..RunLength(s)]] + Tokens(s[RunLength(s)..])
  }

  /** Every token is a non-empty run of non-space bytes. */
  lemma {:induction false} TokensNonEmptyNoSpace(s: seq<byte>)
    ensures forall k :: 0 <= k < |Tokens(s)| ==>
              |Tokens(s)[k]| > 0 && forall i :: 0 <= i < |Tokens(s)[k]| ==> Tokens(s)[k][i] != SPACE
    decreases |s|
  {
    if s != [] {
      if s[0] == SPACE {
        TokensNonEmptyNoSpace(s[1..]);
      } else {
        TokensNonEmptyNoSpace(s[RunLength(s)..]);
      }
    }
  }

  /** get_title: the copy of the command line cut where strtok_r writes
      the terminator after the first token. Leading spaces stay in the
      title, since get_title returns the start of the copy, not the token. */
  function Title(s: seq<byte>): seq<byte>
  {
    var lead := LeadingSpaces(s);
    s[..lead + RunLength(s[lead..])]
  }

  /** strtok_r skips the leading spaces: the first token is the run of
      non-space bytes that follows them. */
  lemma {:induction false} FirstTokenAfterLead(s: seq<byte>)
    requires Tokens(s) != []
    ensures LeadingSpaces(s) < |s|
    ensures Tokens(s)[0] == s[LeadingSpaces(s)..][..RunLength(s[LeadingSpaces(s)..])]
    decreases |s|
  {
    if s[0] == SPACE {
      FirstTokenAfterLead(s[1..]);
      assert s[1..][LeadingSpaces(s[1..])..] == s[LeadingSpaces(s)..];
    }
  }

  /** The title is the leading spaces followed by the first token; when the
      command line does not start with a space it is the first token. */
  lemma TitleIsFirstToken(s: seq<byte>)
    requires Tokens(s) != []
    ensures Title(s) == s[..LeadingSpaces(s)] + Tokens(s)[0]
    ensures s[0] != SPACE ==> Title(s) == Tokens(s)[0]
  {
    var lead := LeadingSpaces(s);
    FirstTokenAfterLead(s);
    var n := RunLength(s[lead..]);
    assert s[..lead + n] == s[..lead] + s[lead..][..n];
  }

  /** Bytes the strings take on the stack: each token and its terminator. */
  function StringsSize(ts: seq<seq<byte>>, k: nat): nat
    requires k <= |ts|
  {
    if k == 0 then 0 else StringsSize(ts, k - 1) + |ts[k - 1]| + 1
  }

  /** Where pass_argument puts token k: PHYS_BASE less the strings of tokens 0..k. */
  function StringAddr(ts: seq<seq<byte>>, k: nat): int
    requires k < |ts|
  {
    PHYS_BASE - StringsSize(ts, k + 1)
  }

  /** The stack pointer pass_argument leaves: strings, 1 to 4 bytes of
      alignment, argv[0..argc], the argv pointer, argc and a return slot. */
  function FinalEsp(ts: seq<seq<byte>>): int
  {
    var str := StringsSize(ts, |ts|);
    PHYS_BASE - str - (4 - str % 4) - 4 * (|ts| + 1) - 12
  }

  /** The little-endian word stored at address a. */
  function MemWord(mem: map<int, byte>, a: int): int
    requires a in mem && a + 1 in mem && a + 2 in mem && a + 3 in mem
  {
    mem[a] as int + 256 * mem[a + 1] as int + 65536 * mem[a + 2] as int + 16777216 * mem[a + 3] as int
  }

  function StoreBytes(mem: map<int, byte>, a: int, bs: seq<byte>): (m: map<int, byte>)
    ensures forall x :: a <= x < a + |bs| ==> x in m && m[x] == bs[x - a]
    ensures Keeps(mem, m, a, a + |bs|)
    decreases |bs|
  {
    if bs == [] then mem else StoreBytes(mem[a := bs[0]], a + 1, bs[1..])
  }

  function StoreWord(mem: map<int, byte>, a: int, v: u32): (m: map<int, byte>)
    ensures WordAt(m, a, v)
    ensures Keeps(mem, m, a, a + 4)
  {
    var bs := Encode([v]);
    WordOfEncode([v], 0);
    StoreBytes(mem, a, bs)
  }

  /** A token and its terminator lie at addr in mem. */
  ghost predicate HoldsString(mem: map<int, byte>, addr: int, t: seq<byte>)
  {
    (forall x :: addr <= x < addr + |t| ==> x in mem && mem[x] == t[x - addr])
    && addr + |t| in mem && mem[addr + |t|] == 0
  }

  /** The word v is stored at address a in mem. */
  ghost predicate WordAt(mem: map<int, byte>, a: int, v: int)
  {
    a in mem && a + 1 in mem && a + 2 in mem && a + 3 in mem && MemWord(mem, a) == v
  }

  /** m2 agrees with m1 outside [lo, hi). */
  ghost predicate Keeps(m1: map<int, byte>, m2: map<int, byte>, lo: int, hi: int)
  {
    forall x :: x in m1 && !(lo <= x < hi) ==> x in m2 && m2[x] == m1[x]
  }

  lemma KeepString(m1: map<int, byte>, m2: map<int, byte>, lo: int, hi: int, addr: int, t: seq<byte>)
    requires HoldsString(m1, addr, t) && Keeps(m1, m2, lo, hi)
    requires hi <= addr || addr + |t| < lo
    ensures HoldsString(m2, addr, t)
  {
    assert m2[addr + |t|] == m1[addr + |t|];
  }

  lemma KeepWord(m1: map<int, byte>, m2: map<int, byte>, lo: int, hi: int, a: int, v: int)
    requires WordAt(m1, a, v) && Keeps(m1, m2, lo, hi)
    requires hi <= a || a + 4 <= lo
    ensures WordAt(m2, a, v)
  {
    assert m2[a] == m1[a] && m2[a + 1] == m1[a + 1] && m2[a + 2] == m1[a + 2] && m2[a + 3] == m1[a + 3];
  }

  lemma KeepStrings(m1: map<int, byte>, m2: map<int, byte>, lo: int, hi: int, addrs: seq<int>, ts: seq<seq<byte>>)
    requires |addrs| == |ts| && Keeps(m1, m2, lo, hi)
    requires forall k :: 0 <= k < |ts| ==> HoldsString(m1, addrs[k], ts[k]) && hi <= addrs[k]
    ensures forall k :: 0 <= k < |ts| ==> HoldsString(m2, addrs[k], ts[k])
  {
    forall k | 0 <= k < |ts| ensures HoldsString(m2, addrs[k], ts[k]) {
      KeepString(m1, m2, lo, hi, addrs[k], ts[k]);
    }
  }

  lemma KeepWords(m1: map<int, byte>, m2: map<int, byte>, lo: int, hi: int, base: int, ws: seq<int>)
    requires Keeps(m1, m2, lo, hi) && (base + 4 * |ws| <= lo || hi <= base)
    requires forall j :: 0 <= j < |ws| ==> WordAt(m1, base + 4 * j, ws[j])
    ensures forall j :: 0 <= j < |ws| ==> WordAt(m2, base + 4 * j, ws[j])
  {
    forall j | 0 <= j < |ws| ensures WordAt(m2, base + 4 * j, ws[j]) {
      KeepWord(m1, m2, lo, hi, base + 4 * j, ws[j]);
    }
  }

  lemma {:induction false} StringsSizeMono(ts: seq<seq<byte>>, j: nat, k: nat)
    requires j <= k <= |ts|
    ensures StringsSize(ts, j) <= StringsSize(ts, k)
    decreases k - j
  {
    if j < k {
      StringsSizeMono(ts, j, k - 1);
    }
  }

  /** Storing a string and its terminator at a leaves it readable there. */
  lemma StoredString(mem: map<int, byte>, a: int, t: seq<byte>)
    ensures HoldsString(StoreBytes(mem, a, t + [0]), a, t)
  {
    var m := StoreBytes(mem, a, t + [0]);
    forall x | a <= x < a + |t| ensures x in m && m[x] == t[x - a] {
      assert (t + [0])[x - a] == t[x - a];
    }
    assert (t + [0])[|t|] == 0;
  }

  /** The loop state of pass_argument's first loop: the first |argv|
      arguments are on the stack, each at its address below PHYS_BASE. */
  ghost predicate Pushed(ts: seq<seq<byte>>, argv: seq<u32>, mem: map<int, byte>)
  {
    |argv| <= |ts|
    && (forall k :: 0 <= k < |argv| ==> argv[k] == StringAddr(ts, k))
    && (forall k :: 0 <= k < |argv| ==> argv[k] >= PHYS_BASE - StringsSize(ts, |ts|))
    && (forall k :: 0 <= k < |argv| ==> HoldsString(mem, argv[k], ts[k]))
  }

  /** The next argument goes below those already pushed, so storing it
      leaves them in place. */
  lemma PushedKeep(ts: seq<seq<byte>>, argv: seq<u32>, mem: map<int, byte>, a: u32)
    requires Pushed(ts, argv, mem) && |argv| < |ts| && a == StringAddr(ts, |argv|)
    ensures forall j :: 0 <= j < |argv| ==> HoldsString(StoreBytes(mem, a, ts[|argv|] + [0]), argv[j], ts[j])
  {
    var k, t := |argv|, ts[|argv|];
    var m := StoreBytes(mem, a, t + [0]);
    forall j | 0 <= j < k ensures HoldsString(m, argv[j], ts[j]) {
      StringsSizeMono(ts, j + 1, k);
      KeepString(mem, m, a, a + |t| + 1, argv[j], ts[j]);
    }
  }

  /** Pushing the next argument at its address keeps the arguments
      already pushed and adds the new one. */
  lemma PushedStep(ts: seq<seq<byte>>, argv: seq<u32>, mem: map<int, byte>, a: u32)
    requires Pushed(ts, argv, mem) && |argv| < |ts| && a == StringAddr(ts, |argv|)
    ensures Pushed(ts, argv + [a], StoreBytes(mem, a, ts[|argv|] + [0]))
  {
    var k, t := |argv|, ts[|argv|];
    var m := StoreBytes(mem, a, t + [0]);
    StringsSizeMono(ts, k + 1, |ts|);
    PushedKeep(ts, argv, mem, a);
    StoredString(mem, a, t);
    var argv1 := argv + [a];
    forall j | 0 <= j < k + 1
      ensures argv1[j] == StringAddr(ts, j) && argv1[j] >= PHYS_BASE - StringsSize(ts, |ts|)
      ensures HoldsString(m, argv1[j], ts[j])
    {
      if j < k {
        assert argv1[j] == argv[j];
      }
    }
  }

  /** The first loop of pass_argument: each token in turn is copied with its
      terminator just below the previous one, and its address recorded. */
  method PushStrings(ts: seq<seq<byte>>) returns (argv: seq<u32>, mem: map<int, byte>)
    requires StringsSize(ts, |ts|) < PHYS_BASE
    ensures |argv| == |ts|
    ensures forall k :: 0 <= k < |ts| ==> argv[k] == StringAddr(ts, k) && HoldsString(mem, argv[k], ts[k])
    ensures forall k :: 0 <= k < |ts| ==> argv[k] >= PHYS_BASE - StringsSize(ts, |ts|)
  {
    var tmp: int := PHYS_BASE;
    argv := [];
    mem := map[];
    while |argv| < |ts|
      invariant Pushed(ts, argv, mem)
      invariant tmp == PHYS_BASE - StringsSize(ts, |argv|)
    {
      var t := ts[|argv|];
      StringsSizeMono(ts, |argv| + 1, |ts|);
      tmp := tmp - (|t| + 1);
      var addr: u32 := tmp;
      PushedStep(ts, argv, mem, addr);
      mem := StoreBytes(mem, addr, t + [0]);
      argv := argv + [addr];
    }
  }

  /** memcpy of a vector of words to base. */
  method StoreWords(mem: map<int, byte>, base: int, ws: seq<u32>) returns (m: map<int, byte>)
    ensures forall j :: 0 <= j < |ws| ==> WordAt(m, base + 4 * j, ws[j])
    ensures Keeps(mem, m, base, base + 4 * |ws|)
  {
    m := mem;
    var k := 0;
    while k < |ws|
      invariant 0 <= k <= |ws|
      invariant Keeps(mem, m, base, base + 4 * k)
      invariant forall j :: 0 <= j < k ==> WordAt(m, base + 4 * j, ws[j])
    {
      var before := m;
      m := StoreWord(m, base + 4 * k, ws[k]);
      forall j | 0 <= j < k ensures WordAt(m, base + 4 * j, ws[j]) {
        KeepWord(before, m, base + 4 * k, base + 4 * k + 4, base + 4 * j, ws[j]);
      }
      k := k + 1;
    }
  }

  /** pass_argument (the stack page is modelled as a map from address to
      byte holding only what the function writes). Tokens are pushed in
      order below PHYS_BASE, each with its terminator; then the stack is
      aligned, argv[0..argc] (argv[argc] = NULL), the argv pointer and argc
      are pushed, and esp is left one return slot below. */
  method PassArgument(cmdline: seq<byte>) returns (esp: int, mem: map<int, byte>)
    requires FinalEsp(Tokens(cmdline)) >= PHYS_BASE - PGSIZE
    ensures ArgumentFrame(mem, esp, Tokens(cmdline))
  {
    esp, mem := BuildFrame(Tokens(cmdline));
  }

  /** Twelve bytes below a word-aligned address is still word aligned. */
  lemma AlignedBelow(base: int)
    requires base % 4 == 0
    ensures (base - 12) % 4 == 0
  {
  }

  /** The frame pass_argument leaves for the tokens ts, esp at its return slot. */
  ghost predicate ArgumentFrame(mem: map<int, byte>, esp: int, ts: seq<seq<byte>>)
  {
    esp == FinalEsp(ts) && esp % 4 == 0
    && WordAt(mem, esp + 4, |ts|)
    && WordAt(mem, esp + 8, esp + 12)
    && (forall k :: 0 <= k < |ts| ==> WordAt(mem, esp + 12 + 4 * k, StringAddr(ts, k)))
    && WordAt(mem, esp + 12 + 4 * |ts|, 0)
    && (forall k :: 0 <= k < |ts| ==> HoldsString(mem, StringAddr(ts, k), ts[k]))
  }

  lemma FrameAssembled(mem: map<int, byte>, esp: int, base: int, ts: seq<seq<byte>>, argv: seq<int>, words: seq<int>)
    requires |argv| == |ts| && words == argv + [0] && esp == base - 12 == FinalEsp(ts) && base % 4 == 0
    requires WordAt(mem, base - 8, |ts|) && WordAt(mem, base - 4, base)
    requires forall j :: 0 <= j < |words| ==> WordAt(mem, base + 4 * j, words[j])
    requires forall k :: 0 <= k < |ts| ==> argv[k] == StringAddr(ts, k)
    requires forall k :: 0 <= k < |ts| ==> HoldsString(mem, argv[k], ts[k])
    ensures ArgumentFrame(mem, esp, ts)
  {
    AlignedBelow(base);
    assert esp + 4 == base - 8 && esp + 8 == base - 4 && esp + 12 == base;
    assert WordAt(mem, base + 4 * |ts|, words[|ts|]) && words[|ts|] == 0;
    assert WordAt(mem, esp + 12 + 4 * |ts|, 0);
    forall k | 0 <= k < |ts| ensures WordAt(mem, esp + 12 + 4 * k, StringAddr(ts, k)) {
      assert WordAt(mem, base + 4 * k, words[k]);
    }
    forall k | 0 <= k < |ts| ensures HoldsString(mem, StringAddr(ts, k), ts[k]) {
      assert HoldsString(mem, argv[k], ts[k]);
    }
  }

  /** Where the argv vector goes: below the strings, rounded down to a
      word boundary with 1 to 4 bytes of padding. */
  function VectorBase(ts: seq<seq<byte>>): int
  {
    var size := StringsSize(ts, |ts|);
    PHYS_BASE - size - (4 - size % 4) - 4 * (|ts| + 1)
  }

  lemma VectorLayout(ts: seq<seq<byte>>)
    requires FinalEsp(ts) >= PHYS_BASE - PGSIZE
    ensures VectorBase(ts) % 4 == 0 && VectorBase(ts) - 12 == FinalEsp(ts)
    ensures 0 <= VectorBase(ts) - 12 && VectorBase(ts) + 4 * (|ts| + 1) <= PHYS_BASE - StringsSize(ts, |ts|)
    ensures |ts| < PGSIZE
  {
    var size := StringsSize(ts, |ts|);
    var q, r := size / 4, size % 4;
    assert VectorBase(ts) == 4 * (PHYS_BASE / 4 - q - 1 - (|ts| + 1));
  }

  /** The body of pass_argument once the tokens are known. */
  method BuildFrame(ts: seq<seq<byte>>) returns (esp: int, mem: map<int, byte>)
    requires FinalEsp(ts) >= PHYS_BASE - PGSIZE
    ensures ArgumentFrame(mem, esp, ts)
  {
    var argv, strings := PushStrings(ts);
    esp, mem := PushVector(ts, argv, strings);
  }

  /** The three stores on top of the strings keep each other's words and
      the strings, so together they make the frame. */
  lemma VectorFrame(ts: seq<seq<byte>>, argv: seq<int>, words: seq<int>,
                    strings: map<int, byte>, vector: map<int, byte>, withArgv: map<int, byte>,
                    mem: map<int, byte>, base: int, esp: int)
    requires FinalEsp(ts) >= PHYS_BASE - PGSIZE && |argv| == |ts| && words == argv + [0]
    requires base == VectorBase(ts) && esp == base - 12
    requires forall k :: 0 <= k < |ts| ==> argv[k] == StringAddr(ts, k) && HoldsString(strings, argv[k], ts[k])
    requires forall k :: 0 <= k < |ts| ==> argv[k] >= PHYS_BASE - StringsSize(ts, |ts|)
    requires forall j :: 0 <= j < |words| ==> WordAt(vector, base + 4 * j, words[j])
    requires Keeps(strings, vector, base, base + 4 * |words|)
    requires WordAt(withArgv, base - 4, base) && Keeps(vector, withArgv, base - 4, base)
    requires WordAt(mem, base - 8, |ts|) && Keeps(withArgv, mem, base - 8, base - 4)
    ensures ArgumentFrame(mem, esp, ts)
  {
    VectorLayout(ts);
    KeepStrings(strings, vector, base, base + 4 * |words|, argv, ts);
    KeepStrings(vector, withArgv, base - 4, base, argv, ts);
    KeepStrings(withArgv, mem, base - 8, base - 4, argv, ts);
    KeepWords(vector, withArgv, base - 4, base, base, words);
    KeepWords(withArgv, mem, base - 8, base - 4, base, words);
    KeepWord(withArgv, mem, base - 8, base - 4, base - 4, base);
    FrameAssembled(mem, esp, base, ts, argv, words);
  }

  /** The rest of pass_argument once the strings are on the stack: align,
      copy argv[0..argc], push the argv pointer and argc. */
  method PushVector(ts: seq<seq<byte>>, argv: seq<u32>, strings: map<int, byte>) returns (esp: int, mem: map<int, byte>)
    requires FinalEsp(ts) >= PHYS_BASE - PGSIZE && |argv| == |ts|
    requires forall k :: 0 <= k < |ts| ==> argv[k] == StringAddr(ts, k) && HoldsString(strings, argv[k], ts[k])
    requires forall k :: 0 <= k < |ts| ==> argv[k] >= PHYS_BASE - StringsSize(ts, |ts|)
    ensures ArgumentFrame(mem, esp, ts)
  {
    var size := StringsSize(ts, |ts|);
    var tmp: int := PHYS_BASE - size;
    assert PHYS_BASE - tmp == size;
    tmp := tmp - (4 - (PHYS_BASE - tmp) % 4);
    tmp := tmp - 4 * (|ts| + 1);
    VectorLayout(ts);
    assert tmp == VectorBase(ts);
    var vectorBase: u32 := tmp;
    var vector := StoreWords(strings, vectorBase, argv + [0]);
    var withArgv := StoreWord(vector, vectorBase - 4, vectorBase);
    tmp := tmp - 8;
    mem := StoreWord(withArgv, tmp, |ts|);
    esp := tmp - 4;
    VectorFrame(ts, argv, argv + [0], strings, vector, withArgv, mem, vectorBase, esp);
  }
}
