/** The ELF header: what the relocation reads of it is what a header encoder put there. */
module ElfHeader {
  import opened Prelude
  import opened Relocation

  function Backwards(b: Bytes): (r: Bytes)
    ensures |r| == |b|
  {
    if b == [] then [] else Backwards(b[1..]) + [b[0]]
  }

  /** A number in the byte order of the file. */
  function EncodeAs(n: nat, size: nat, little: bool): (b: Bytes)
    ensures |b| == size
  {
    if little then Encode(n, size) else Backwards(Encode(n, size))
  }

  lemma {:induction false} BackwardsNumber(b: Bytes)
    ensures Number(Backwards(b), false) == Number(b, true)
    decreases |b|
  {
    if b != [] {
      BackwardsNumber(b[1..]);
      var r := Backwards(b);
      assert r[..|r| - 1] == Backwards(b[1..]);
    }
  }

  lemma EncodeAsNumber(n: nat, size: nat, little: bool)
    requires n < Power(size)
    ensures Number(EncodeAs(n, size, little), little) == n
  {
    EncodeNumber(n, size);
    BackwardsNumber(Encode(n, size));
  }

  /** The identification that a file of this kind starts with: magic number, class, byte order, version, padding. */
  function Identification(a: Arch): (b: Bytes)
    ensures |b| == 16
  {
    [0x7f, Code('E'), Code('L'), Code('F'), if a.wide then 2 else 1, if a.little then 1 else 2, 1] + Zeros(9)
  }

  /**
   What is taken for what: the identification need only look like a proper one in its first byte and its class, and
   every byte order but the little one is big.
   */
  lemma ArchExactly(ident: Bytes, a: Arch)
    requires |ident| == 16
    ensures var proper := Identification(a);
            ArchOf(ident) == Some(a) <==>
              ident[0] == proper[0] && ident[4] == proper[4]
              && (ident[5] == Identification(Arch(a.wide, true))[5] <==> a.little)
    ensures ArchOf(Identification(a)) == Some(a)
  {
  }

  predicate HeaderFits(e: Elf) {
    && e.phoff < TooLong(e) && e.shoff < TooLong(e) && e.phentsize < 0x1_0000 && e.phnum < 0x1_0000
    && e.shentsize < 0x1_0000 && e.shnum < 0x1_0000 && e.shstrndx < 0x1_0000
  }

  /** The table sizes and numbers at the end of a header. */
  function Counts(e: Elf): (b: Bytes)
    ensures |b| == 10
  {
    var l := e.little;
    EncodeAs(e.phentsize, 2, l) + EncodeAs(e.phnum, 2, l) + EncodeAs(e.shentsize, 2, l) + EncodeAs(e.shnum, 2, l)
    + EncodeAs(e.shstrndx, 2, l)
  }

  /** The header: `start` is type, machine, version and entry point, `flags` is flags and header size. */
  function Header(e: Elf, start: Bytes, flags: Bytes): Bytes {
    var w := LengthSize(e);
    Identification(Arch(e.wide, e.little)) + start + EncodeAs(e.phoff, w, e.little) + EncodeAs(e.shoff, w, e.little)
        + flags
    + Counts(e)
  }

  lemma FivePairs(p: Bytes, q: Bytes, r: Bytes, s: Bytes, t: Bytes)
    requires |p| == |q| == |r| == |s| == |t| == 2
    ensures var c := p + q + r + s + t; c[0..2] == p && c[2..4] == q && c[4..6] == r && c[6..8] == s && c[8..10] == t
  {
  }

  lemma CountsRead(e: Elf)
    requires HeaderFits(e)
    ensures var (c, l) := (Counts(e), e.little);
            && Field(c, 0, 2, l) == e.phentsize && Field(c, 2, 2, l) == e.phnum && Field(c, 4, 2, l) == e.shentsize
            && Field(c, 6, 2, l) == e.shnum && Field(c, 8, 2, l) == e.shstrndx
  {
    var l := e.little;
    FivePairs(EncodeAs(e.phentsize, 2, l), EncodeAs(e.phnum, 2, l), EncodeAs(e.shentsize, 2, l),
              EncodeAs(e.shnum, 2, l), EncodeAs(e.shstrndx, 2, l));
    PairRead(e.phentsize, l);
    PairRead(e.phnum, l);
    PairRead(e.shentsize, l);
    PairRead(e.shnum, l);
    PairRead(e.shstrndx, l);
  }

  lemma PairRead(n: nat, little: bool)
    requires n < 0x1_0000
    ensures Number(EncodeAs(n, 2, little), little) == n
  {
    assert Power(2) == 0x1_0000;
    EncodeAsNumber(n, 2, little);
  }

  lemma FieldShift(h: Bytes, from: nat, n: nat, at: nat, size: nat, little: bool)
    requires from + n <= |h| && at + size <= n
    ensures Field(h, from + at, size, little) == Field(h[from..from + n], at, size, little)
  {
    SlicePart(h, from, n, at, size);
  }

  /** The five numbers at the end of the header, wherever it puts them. */
  lemma CountsShift(e: Elf, h: Bytes, at: nat)
    requires HeaderFits(e) && at + 10 <= |h| && h[at..at + 10] == Counts(e)
    ensures var l := e.little;
            && Field(h, at, 2, l) == e.phentsize && Field(h, at + 2, 2, l) == e.phnum
            && Field(h, at + 4, 2, l) == e.shentsize && Field(h, at + 6, 2, l) == e.shnum
            && Field(h, at + 8, 2, l) == e.shstrndx
  {
    CountsRead(e);
    FieldShift(h, at, 10, 0, 2, e.little);
    FieldShift(h, at, 10, 2, 2, e.little);
    FieldShift(h, at, 10, 4, 2, e.little);
    FieldShift(h, at, 10, 6, 2, e.little);
    FieldShift(h, at, 10, 8, 2, e.little);
  }

  lemma OffsetsRead(e: Elf, h: Bytes)
    requires HeaderFits(e) && |h| == 64
    requires var w := LengthSize(e);
             h[24 + w..24 + 2 * w] == EncodeAs(e.phoff, w, e.little)
             && h[24 + 2 * w..24 + 3 * w] == EncodeAs(e.shoff, w, e.little)
    ensures var w := LengthSize(e);
            Field(h, 24 + w, w, e.little) == e.phoff && Field(h, 24 + 2 * w, w, e.little) == e.shoff
  {
    PowerSize(e);
    EncodeAsNumber(e.phoff, LengthSize(e), e.little);
    EncodeAsNumber(e.shoff, LengthSize(e), e.little);
  }

  /** A proper header is read as what it says. */
  lemma HeaderRead(e: Elf, start: Bytes, flags: Bytes, rest: Bytes)
    requires HeaderFits(e) && |start| == 8 + LengthSize(e) && |flags| == 6
    requires |Header(e, start, flags) + rest| >= 64
    ensures var d := Header(e, start, flags) + rest;
            && ArchOf(ReadAt(d, 0, 16)) == Some(Arch(e.wide, e.little))
            && ElfOf(Arch(e.wide, e.little), ReadAt(d, 0, 64)) == e
  {
    var w, l, a := LengthSize(e), e.little, Arch(e.wide, e.little);
    var d := Header(e, start, flags) + rest;
    var h := ReadAt(d, 0, 64);
    assert ReadAt(d, 0, 16) == Identification(a);
    ArchExactly(Identification(a), a);
    HeaderParts(h, Identification(a), start, EncodeAs(e.phoff, w, l), EncodeAs(e.shoff, w, l), flags, Counts(e), w,
        rest);
    OffsetsRead(e, h);
    CountsShift(e, h, 30 + 3 * w);
    ElfIs(e, h, w);
  }

  lemma ElfIs(e: Elf, h: Bytes, w: nat)
    requires |h| == 64 && w == LengthSize(e)
    requires Field(h, 24 + w, w, e.little) == e.phoff && Field(h, 24 + 2 * w, w, e.little) == e.shoff
    requires Field(h, 30 + 3 * w, 2, e.little) == e.phentsize && Field(h, 32 + 3 * w, 2, e.little) == e.phnum
    requires Field(h, 34 + 3 * w, 2, e.little) == e.shentsize && Field(h, 36 + 3 * w, 2, e.little) == e.shnum
    requires Field(h, 38 + 3 * w, 2, e.little) == e.shstrndx
    ensures ElfOf(Arch(e.wide, e.little), h) == e
  {
  }

  lemma HeaderParts(h: Bytes, id: Bytes, start: Bytes, p: Bytes, s: Bytes, flags: Bytes, c: Bytes, w: nat, rest: Bytes)
    requires |id| == 16 && |start| == 8 + w && |p| == |s| == w <= 8 && |flags| == 6 && |c| == 10 && |h| == 64
    requires h == ReadAt(id + start + p + s + flags + c + rest, 0, 64)
    ensures h[24 + w..24 + 2 * w] == p && h[24 + 2 * w..24 + 3 * w] == s
    ensures h[30 + 3 * w..40 + 3 * w] == c
  {
    var d := id + start + p + s + flags + c + rest;
    assert d[24 + w..24 + 2 * w] == p && d[24 + 2 * w..24 + 3 * w] == s && d[30 + 3 * w..40 + 3 * w] == c;
    assert h[30 + 3 * w..40 + 3 * w] == d[30 + 3 * w..40 + 3 * w];
  }

  // ---- The rows of the two tables --------------------------------------------------------------

  /** The first `i` fields of a row; each is a number and its size in bytes. */
  function Row(fields: seq<(nat, nat)>, i: nat, little: bool): (b: Bytes)
    requires i <= |fields|
    ensures |b| == Start(fields, i)
  {
    if i == 0 then [] else Row(fields, i - 1, little) + EncodeAs(fields[i - 1].0, fields[i - 1].1, little)
  }

  /** Where field `i` begins. */
  function Start(fields: seq<(nat, nat)>, i: nat): nat
    requires i <= |fields|
  {
    if i == 0 then 0 else Start(fields, i - 1) + fields[i - 1].1
  }

  predicate AllFit(fields: seq<(nat, nat)>) {
    forall f | f in fields :: f.0 < Power(f.1)
  }

  lemma {:induction false} RowBegins(fields: seq<(nat, nat)>, i: nat, n: nat, little: bool)
    requires i <= n <= |fields|
    ensures Row(fields, i, little) <= Row(fields, n, little)
    decreases n - i
  {
    if i < n {
      RowBegins(fields, i, n - 1, little);
    }
  }

  /** Each field reads back from where it begins. */
  lemma RowRead(fields: seq<(nat, nat)>, i: nat, little: bool)
    requires i < |fields| && AllFit(fields)
    ensures var row, at := Row(fields, |fields|, little), Start(fields, i);
            at + fields[i].1 <= |row| && Field(row, at, fields[i].1, little) == fields[i].0
  {
    RowBegins(fields, i + 1, |fields|, little);
    FieldFits(fields, i);
    FieldStands(Row(fields, i, little), fields[i].0, fields[i].1, little, Row(fields, |fields|, little));
  }

  lemma FieldFits(fields: seq<(nat, nat)>, i: nat)
    requires i < |fields| && AllFit(fields)
    ensures fields[i].0 < Power(fields[i].1)
  {
    assert fields[i] in fields;
  }

  lemma FieldStands(a: Bytes, n: nat, size: nat, little: bool, all: Bytes)
    requires a + EncodeAs(n, size, little) <= all && n < Power(size)
    ensures |a| + size <= |all| && Field(all, |a|, size, little) == n
  {
    EncodeAsNumber(n, size, little);
    Middle(a, EncodeAs(n, size, little), all);
  }

  lemma Middle(a: Bytes, b: Bytes, all: Bytes)
    requires a + b <= all
    ensures |a| + |b| <= |all| && all[|a|..|a| + |b|] == b
  {
    assert all[..|a| + |b|] == a + b;
  }

  /** All fields of a section header. */
  datatype SectionFields = SectionFields(name: nat, kind: nat, flags: nat, addr: nat, offset: nat, size: nat,
                                         link: nat, info: nat, align: nat, entsize: nat)

  /** In the order of the format, with the size that each has; `w` is that of an address. */
  function SectionRow(s: SectionFields, w: nat): seq<(nat, nat)> {
    [(s.name, 4), (s.kind, 4), (s.flags, w), (s.addr, w), (s.offset, w), (s.size, w), (s.link, 4), (s.info, 4),
     (s.align, w), (s.entsize, w)]
  }

  function SectionHeader(e: Elf, s: SectionFields): Bytes {
    Row(SectionRow(s, LengthSize(e)), 10, e.little)
  }

  lemma SectionStarts(s: SectionFields, w: nat)
    ensures var f := SectionRow(s, w);
            && Start(f, 0) == 0 && Start(f, 1) == 4 && Start(f, 4) == 8 + 2 * w && Start(f, 5) == 8 + 3 * w
            && Start(f, 10) == 16 + 6 * w
  {
    var f := SectionRow(s, w);
    assert Start(f, 2) == 8 && Start(f, 3) == 8 + w;
    assert Start(f, 4) == 8 + 2 * w;
    assert Start(f, 6) == 8 + 4 * w && Start(f, 7) == 12 + 4 * w;
    assert Start(f, 8) == 16 + 4 * w && Start(f, 9) == 16 + 5 * w;
  }

  /** Of a section header, whatever its fields, exactly name, type, offset and size are read. */
  lemma SectionRead(e: Elf, s: SectionFields)
    requires AllFit(SectionRow(s, LengthSize(e)))
    ensures SectionOf(e, SectionHeader(e, s)) == Some(Section(s.name, s.kind, s.offset, s.size))
  {
    var w := LengthSize(e);
    var f := SectionRow(s, w);
    SectionStarts(s, w);
    RowRead(f, 0, e.little);
    RowRead(f, 1, e.little);
    RowRead(f, 4, e.little);
    RowRead(f, 5, e.little);
    assert f[0] == (s.name, 4) && f[1] == (s.kind, 4) && f[4] == (s.offset, w) && f[5] == (s.size, w);
  }

  /** All fields of a program header; the flags stand second in 64-bit files and last but one in others. */
  datatype SegmentFields = SegmentFields(kind: nat, flags: nat, offset: nat, vaddr: nat, paddr: nat, filesz: nat,
                                         memsz: nat, align: nat)

  function SegmentRow(e: Elf, s: SegmentFields): seq<(nat, nat)> {
    if e.wide then
      [(s.kind, 4), (s.flags, 4), (s.offset, 8), (s.vaddr, 8), (s.paddr, 8), (s.filesz, 8), (s.memsz, 8), (s.align, 8)]
    else
      [(s.kind, 4), (s.offset, 4), (s.vaddr, 4), (s.paddr, 4), (s.filesz, 4), (s.memsz, 4), (s.flags, 4), (s.align, 4)]
  }

  function SegmentHeader(e: Elf, s: SegmentFields): Bytes {
    Row(SegmentRow(e, s), 8, e.little)
  }

  lemma SegmentStarts(e: Elf, s: SegmentFields)
    ensures var f := SegmentRow(e, s);
            && Start(f, 0) == 0 && Start(f, 8) == (if e.wide then 56 else 32)
            && (if e.wide then Start(f, 2) == 8 && Start(f, 5) == 32 else Start(f, 1) == 4 && Start(f, 4) == 16)
  {
    var f := SegmentRow(e, s);
    assert Start(f, 1) == 4;
    assert Start(f, 2) == 8;
    assert Start(f, 3) == if e.wide then 16 else 12;
    assert Start(f, 4) == if e.wide then 24 else 16;
    assert Start(f, 5) == if e.wide then 32 else 20;
    assert Start(f, 6) == if e.wide then 40 else 24;
    assert Start(f, 7) == if e.wide then 48 else 28;
  }

  /** Of a program header, whatever its fields, exactly type, offset and size in the file are read. */
  lemma SegmentRead(e: Elf, s: SegmentFields)
    requires AllFit(SegmentRow(e, s))
    ensures SegmentOf(e, SegmentHeader(e, s)) == Some(Segment(s.kind, s.offset, s.filesz))
  {
    var f := SegmentRow(e, s);
    SegmentStarts(e, s);
    RowRead(f, 0, e.little);
    if e.wide {
      RowRead(f, 2, e.little);
      RowRead(f, 5, e.little);
    } else {
      RowRead(f, 1, e.little);
      RowRead(f, 4, e.little);
    }
  }

  /** A header of any other size is refused. */
  lemma OtherSizesRefused(e: Elf, h: Bytes, s: SectionFields, g: SegmentFields)
    ensures SectionOf(e, h).Some? <==> |h| == |SectionHeader(e, s)|
    ensures SegmentOf(e, h).Some? <==> |h| == |SegmentHeader(e, g)|
  {
    SectionStarts(s, LengthSize(e));
    SegmentStarts(e, g);
  }

  /** The bytes `h` stand in the file at `at`. */
  predicate StandsAt(d: Bytes, at: nat, h: Bytes) {
    at + |h| <= |d| && d[at..at + |h|] == h
  }

  lemma ReadStands(d: Bytes, at: nat, h: Bytes)
    requires StandsAt(d, at, h)
    ensures ReadAt(d, at, |h|) == h
  {
  }

  /** Row `i` of the section table is read from where it stands, `i` rows behind the start of the table. */
  lemma SectionTableRead(e: Elf, d: Bytes, i: nat, s: SectionFields)
    requires AllFit(SectionRow(s, LengthSize(e))) && e.shentsize == |SectionHeader(e, s)|
    requires StandsAt(d, e.shoff + Rows(i, e.shentsize), SectionHeader(e, s))
    ensures SectionAt(e, d, i) == Some(Section(s.name, s.kind, s.offset, s.size))
  {
    ReadStands(d, e.shoff + Rows(i, e.shentsize), SectionHeader(e, s));
    SectionRead(e, s);
  }

  /** And so of the segment table. */
  lemma SegmentTableRead(e: Elf, d: Bytes, i: nat, g: SegmentFields)
    requires AllFit(SegmentRow(e, g)) && e.phentsize == |SegmentHeader(e, g)|
    requires StandsAt(d, e.phoff + Rows(i, e.phentsize), SegmentHeader(e, g))
    ensures SegmentAt(e, d, i) == Some(Segment(g.kind, g.offset, g.filesz))
  {
    ReadStands(d, e.phoff + Rows(i, e.phentsize), SegmentHeader(e, g));
    SegmentRead(e, g);
  }

  // ---- What the names select ---------------------------------------------------------------------

  lemma {:induction false} FindNulAt(s: Bytes, from: nat, z: nat)
    requires from <= z < |s| && s[z] == 0 && forall i | from <= i < z :: s[i] != 0
    ensures FindNul(s, from) == z
    decreases z - from
  {
    if from < z {
      FindNulAt(s, from + 1, z);
    }
  }

  /** A name in the string table is read from where it starts, up to its NUL. */
  lemma NameRead(before: Bytes, name: Bytes, after: Bytes)
    requires 0 !in name
    ensures NameAt(before + name + [0] + after, |before|) == name
  {
    var s := before + name + [0] + after;
    var z := |before| + |name|;
    assert s[z] == 0 && s[|before|..z] == name;
    forall i | |before| <= i < z ensures s[i] != 0 {
      assert s[i] == name[i - |before|] && name[i - |before|] in name;
    }
    FindNulAt(s, |before|, z);
  }

  /** The paths of a section of fixed-size paths: as many as fit, each 4096 bytes behind the one before. */
  lemma {:induction false} ChunksExactly(off: nat, size: nat, from: nat)
    requires from <= size
    ensures var slots := Chunks(off, size, from);
            && |slots| == (size - from) / 4096
            && forall k | 0 <= k < |slots| :: slots[k] == Slot(off + from + 4096 * k, 4096)
    decreases size - from
  {
    if from + PATH_MAX <= size {
      ChunksExactly(off, size, from + PATH_MAX);
      var slots, rest := Chunks(off, size, from), Chunks(off, size, from + PATH_MAX);
      assert slots == [Slot(off + from, PATH_MAX)] + rest;
      forall k | 0 <= k < |slots| ensures slots[k] == Slot(off + from + 4096 * k, 4096) {
        assert k > 0 ==> slots[k] == rest[k - 1];
      }
    }
  }

  /** What is rewritten for a section, by its kind and by its name in the string table. */
  lemma SectionSelects(before: Bytes, name: Bytes, after: Bytes, s: Section, d: Bytes, dirs: Dirs)
    requires 0 !in name && s.name == |before|
    ensures var strtab := before + name + [0] + after;
            var place := Slot(s.offset, s.size);
            && (s.kind != 1 ==> SlotsOf(strtab, s) == [] && Noted(strtab, s, d, dirs) == dirs)
            && (s.kind == 1 ==>
                  && SlotsOf(strtab, s) == (if name == Ascii(".ldsocache") then [place]
                                            else if name == Ascii(".gccrelocprefix") then Chunks(s.offset, s.size, 0)
                                            else [])
                  && Noted(strtab, s, d, dirs)
                     == (if name == Ascii(".sysdirs") then Dirs(Some(place), ReadAt(d, s.offset, s.size), dirs.lens)
                         else if name == Ascii(".sysdirslen") then Dirs(dirs.at, dirs.text, Some(place))
                         else dirs))
  {
    NameRead(before, name, after);
  }

  /** The directories of the host whose loaders are left alone. */
  const HOST_DIRS := ["/lib/", "/lib32/", "/lib64/", "/usr/lib32/", "/usr/lib64/"]

  /** A loader path is the host's exactly if it starts with one of these; `/usr/lib/` is not among them. */
  lemma NativeExactly(fname: Bytes)
    ensures Native(fname) <==> exists dir :: dir in HOST_DIRS && Ascii(dir) <= fname
    ensures "/usr/lib/" !in HOST_DIRS
  {
    assert HOST_DIRS[0] == "/lib/" && HOST_DIRS[1] == "/lib32/" && HOST_DIRS[2] == "/lib64/";
    assert HOST_DIRS[3] == "/usr/lib32/" && HOST_DIRS[4] == "/usr/lib64/";
    forall dir | dir in HOST_DIRS ensures dir != "/usr/lib/" {
      assert "/usr/lib/"[8] == '/' && |"/usr/lib/"| == 9;
      assert |dir| != 9;
    }
  }

  predicate OtherSegment(s: Option<Segment>) {
    s.Some? && s.value.kind != 3
  }

  lemma SkipSegment(e: Elf, dlPath: Bytes, d: Bytes, i: nat)
    requires i < e.phnum && OtherSegment(SegmentAt(e, d, i))
    ensures Interpreter(e, dlPath, d, i) == Interpreter(e, dlPath, d, i + 1)
  {
  }

  lemma AtLoader(e: Elf, dlPath: Bytes, d: Bytes, i: nat, s: Segment)
    requires i < e.phnum && SegmentAt(e, d, i) == Some(s) && s.kind == 3
    ensures Interpreter(e, dlPath, d, i) == ChangedInterpreter(dlPath, d, s)
  {
  }

  /** The first row of type 3 is the loader's, whatever stands before it. */
  lemma LoaderFound(e: Elf, dlPath: Bytes, d: Bytes, k: nat, s: Segment)
    requires k < e.phnum && SegmentAt(e, d, k) == Some(s) && s.kind == 3
    requires forall j | 0 <= j < k :: OtherSegment(SegmentAt(e, d, j))
    ensures Interpreter(e, dlPath, d, 0) == ChangedInterpreter(dlPath, d, s)
  {
    AtLoader(e, dlPath, d, k, s);
    ghost var result := Interpreter(e, dlPath, d, k);
    for i := k downto 0
      invariant Interpreter(e, dlPath, d, i) == result
    {
      SkipSegment(e, dlPath, d, i);
    }
  }
}
