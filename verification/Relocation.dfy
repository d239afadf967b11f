/** Moving an SDK: the loader path and the install prefixes inside an ELF file are rewritten in place. */
module Relocation {
  import opened Prelude

  type byte = x: int | 0 <= x < 256
  type Bytes = seq<byte>

  function Code(c: char): byte {
    c as int % 256
  }

  function Ascii(s: string): Bytes {
    seq(|s|, i requires 0 <= i < |s| => Code(s[i]))
  }

  const MARKER: Bytes := Ascii("##DEFAULT_INSTALL_DIR##")

  // ---- The file ----------------------------------------------------------------------------

  function Zeros(n: nat): (r: Bytes)
    ensures |r| == n && forall i | 0 <= i < n :: r[i] == 0
  {
    seq(n, _ => 0)
  }

  /** What a read of `n` bytes at `pos` returns: less at the end of the file. */
  function ReadAt(d: Bytes, pos: nat, n: nat): (r: Bytes)
    ensures |r| == if pos + n <= |d| then n else if pos <= |d| then |d| - pos else 0
    ensures forall i | 0 <= i < |r| :: r[i] == d[pos + i]
  {
    if pos + n <= |d| then d[pos..pos + n] else if pos <= |d| then d[pos..] else []
  }

  /** The file after writing `b` at `pos`; a write past the end fills the gap with zeros. */
  function WriteAt(d: Bytes, pos: nat, b: Bytes): (r: Bytes)
    ensures |r| == if b == [] || pos + |b| <= |d| then |d| else pos + |b|
  {
    if b == [] then d
    else if pos > |d| then d + Zeros(pos - |d|) + b
    else if pos + |b| <= |d| then d[..pos] + b + d[pos + |b|..]
    else d[..pos] + b
  }

  /** What was written reads back, every other byte of the file is kept, and a gap before it is zero. */
  lemma WriteContents(d: Bytes, pos: nat, b: Bytes)
    requires b != []
    ensures ReadAt(WriteAt(d, pos, b), pos, |b|) == b
    ensures forall i | 0 <= i < |d| && !(pos <= i < pos + |b|) :: WriteAt(d, pos, b)[i] == d[i]
    ensures forall i | |d| <= i < pos :: WriteAt(d, pos, b)[i] == 0
  {
    if pos > |d| {
      assert WriteAt(d, pos, b) == d + (Zeros(pos - |d|) + b);
    }
  }

  class File {
    var data: Bytes
    var pos: nat

    constructor (data: Bytes)
      ensures this.data == data && pos == 0
    {
      this.data, pos := data, 0;
    }

    method Seek(p: nat)
      modifies this`pos
      ensures pos == p
    {
      pos := p;
    }

    method Read(n: nat) returns (b: Bytes)
      modifies this`pos
      ensures b == ReadAt(data, old(pos), n) && pos == old(pos) + |b|
    {
      b := ReadAt(data, pos, n);
      pos := pos + |b|;
    }

    method Write(b: Bytes)
      modifies this
      ensures data == WriteAt(old(data), old(pos), b) && pos == old(pos) + |b|
    {
      data := WriteAt(data, pos, b);
      pos := pos + |b|;
    }
  }

  // ---- The headers ---------------------------------------------------------------------------

  /** An unsigned number in the byte order of the file. */
  function Number(b: Bytes, little: bool): nat {
    if b == [] then 0
    else if little then b[0] + 256 * Number(b[1..], little)
    else 256 * Number(b[..|b| - 1], little) + b[|b| - 1]
  }

  lemma NumberOfTwo(x: byte, y: byte)
    ensures Number([x, y], true) == x as int + 0x100 * y as int
    ensures Number([x, y], false) == y as int + 0x100 * x as int
  {
    assert [x, y][1..] == [y] && [y][1..] == [];
    assert Number([y], true) == y as int;
    assert [x, y][..1] == [x] && [x][..0] == [];
    assert Number([x], false) == x as int;
  }

  /** The two encodings of a 32-bit word. */
  lemma NumberOfWord(a: byte, b: byte, c: byte, d: byte)
    ensures Number([a, b, c, d], true) == a as int + 0x100 * b as int + 0x1_0000 * c as int + 0x100_0000 * d as int
    ensures Number([a, b, c, d], false) == d as int + 0x100 * c as int + 0x1_0000 * b as int + 0x100_0000 * a as int
  {
    NumberOfTwo(c, d);
    assert [a, b, c, d][1..] == [b, c, d] && [b, c, d][1..] == [c, d];
    assert Number([b, c, d], true) == b as int + 0x100 * Number([c, d], true);
    NumberOfTwo(a, b);
    assert [a, b, c, d][..3] == [a, b, c] && [a, b, c][..2] == [a, b];
    assert Number([a, b, c], false) == 0x100 * Number([a, b], false) + c as int;
  }

  datatype Elf = Elf(wide: bool, little: bool, phoff: nat, shoff: nat, phentsize: nat, phnum: nat,
                     shentsize: nat, shnum: nat, shstrndx: nat)

  /** `wide` for 64 bit. */
  datatype Arch = Arch(wide: bool, little: bool)

  /** Only the first byte of the magic number is looked at: the other three are compared with a `str`. */
  function ArchOf(ident: Bytes): Option<Arch>
    requires |ident| == 16
  {
    if ident[0] != 0x7f || ident[4] == 0 then None
    else if ident[4] == 1 then Some(Arch(false, ident[5] == 1))
    else if ident[4] == 2 then Some(Arch(true, ident[5] == 1))
    else None
  }

  function Field(b: Bytes, at: nat, size: nat, little: bool): nat
    requires at + size <= |b|
  {
    Number(b[at..at + size], little)
  }

  function ElfOf(a: Arch, h: Bytes): Elf
    requires |h| == 64
  {
    var l := a.little;
    if a.wide then
      Elf(true, l, Field(h, 32, 8, l), Field(h, 40, 8, l), Field(h, 54, 2, l), Field(h, 56, 2, l),
          Field(h, 58, 2, l), Field(h, 60, 2, l), Field(h, 62, 2, l))
    else
      Elf(false, l, Field(h, 28, 4, l), Field(h, 32, 4, l), Field(h, 42, 2, l), Field(h, 44, 2, l),
          Field(h, 46, 2, l), Field(h, 48, 2, l), Field(h, 50, 2, l))
  }

  datatype Segment = Segment(kind: nat, offset: nat, filesz: nat)

  /** `None` is `struct.error`: the entry does not have the size of a program header. */
  function SegmentOf(e: Elf, h: Bytes): Option<Segment> {
    var l := e.little;
    if |h| != (if e.wide then 56 else 32) then None
    else if e.wide then Some(Segment(Field(h, 0, 4, l), Field(h, 8, 8, l), Field(h, 32, 8, l)))
    else Some(Segment(Field(h, 0, 4, l), Field(h, 4, 4, l), Field(h, 16, 4, l)))
  }

  datatype Section = Section(name: nat, kind: nat, offset: nat, size: nat)

  function SectionOf(e: Elf, h: Bytes): Option<Section> {
    var l := e.little;
    if |h| != (if e.wide then 64 else 40) then None
    else if e.wide then Some(Section(Field(h, 0, 4, l), Field(h, 4, 4, l), Field(h, 24, 8, l), Field(h, 32, 8, l)))
    else Some(Section(Field(h, 0, 4, l), Field(h, 4, 4, l), Field(h, 16, 4, l), Field(h, 20, 4, l)))
  }

  function FindNul(s: Bytes, from: nat): (r: int)
    ensures r == -1 || (from <= r < |s| && s[r] == 0 && forall i | from <= i < r :: s[i] != 0)
    ensures r == -1 ==> forall i | from <= i < |s| :: s[i] != 0
    decreases |s| - from
  {
    if from >= |s| then -1 else if s[from] == 0 then from else FindNul(s, from + 1)
  }

  /** The name that starts at `n`; without a NUL after it the slice ends one byte before the end of the table. */
  function NameAt(strtab: Bytes, n: nat): Bytes {
    var z := FindNul(strtab, n);
    if z != -1 then strtab[n..z] else if n < |strtab| then strtab[n..|strtab| - 1] else []
  }

  // ---- The text of one slot ------------------------------------------------------------------

  /** `old_prefix.sub`: every marker, from the left, becomes the new prefix. */
  function Substitute(prefix: Bytes, s: Bytes): Bytes {
    if |s| < |MARKER| then s
    else if MARKER <= s then MarkerLength(); prefix + Substitute(prefix, s[|MARKER|..])
    else MarkerLength(); [s[0]] + Substitute(prefix, s[1..])
  }

  lemma MarkerLength()
    ensures |MARKER| == 23
  {
  }

  /** `rstrip`: without the trailing NULs. */
  function Strip(s: Bytes): (r: Bytes)
    ensures |r| <= |s| && r == s[..|r|] && (r == [] || r[|r| - 1] != 0)
    ensures forall i | |r| <= i < |s| :: s[i] == 0
  {
    if s != [] && s[|s| - 1] == 0 then Strip(s[..|s| - 1]) else s
  }

  function NewText(prefix: Bytes, s: Bytes): Bytes {
    Strip(Substitute(prefix, s))
  }

  function Pad(s: Bytes, n: nat): Bytes {
    if |s| >= n then s else s + Zeros(n - |s|)
  }

  // ---- What the script does to the bytes -------------------------------------------------------

  datatype Slot = Slot(off: nat, size: nat)

  /**
   `Done(ok)`: the function returned `ok`; `Exited`: `sys.exit(-1)`; `Raised`: `struct.error`, or an unset variable.
   */
  datatype Outcome = Done(ok: bool) | Exited | Raised

  /** The start of an interpreter that belongs to the host and is left alone. */
  predicate Native(fname: Bytes) {
    || Ascii("/lib/") <= fname || Ascii("/lib64/") <= fname || Ascii("/lib32/") <= fname
    || Ascii("/usr/lib32/") <= fname || Ascii("/usr/lib64/") <= fname
  }

  /** The bytes that `n` rows take. */
  function Rows(n: nat, size: nat): nat {
    if n == 0 then 0 else Rows(n - 1, size) + size
  }

  lemma {:induction false} RowsIsProduct(n: nat, size: nat)
    ensures Rows(n, size) == n * size
  {
    if n > 0 {
      RowsIsProduct(n - 1, size);
      assert n * size == (n - 1) * size + size;
    }
  }

  /** A row of a header table. */
  function RowAt(d: Bytes, off: nat, i: nat, size: nat): Bytes {
    ReadAt(d, off + Rows(i, size), size)
  }

  function SegmentAt(e: Elf, d: Bytes, i: nat): Option<Segment> {
    SegmentOf(e, RowAt(d, e.phoff, i, e.phentsize))
  }

  function SectionAt(e: Elf, d: Bytes, i: nat): Option<Section> {
    SectionOf(e, RowAt(d, e.shoff, i, e.shentsize))
  }

  function ChangedInterpreter(dlPath: Bytes, d: Bytes, s: Segment): (Bytes, Outcome) {
    if Native(ReadAt(d, s.offset, 11)) || s.filesz == 0 then (d, Done(true))
    else if |dlPath| >= s.filesz then (d, Done(false))
    else (WriteAt(d, s.offset, Pad(dlPath, s.filesz)), Done(true))
  }

  /** The rows of the program header table from `i` on, up to the first interpreter. */
  function Interpreter(e: Elf, dlPath: Bytes, d: Bytes, i: nat): (Bytes, Outcome)
    decreases e.phnum - i
  {
    if i >= e.phnum then (d, Done(true))
    else
      match SegmentAt(e, d, i)
      case None => (d, Raised)
      case Some(s) =>
        if s.kind != 3 then Interpreter(e, dlPath, d, i + 1) else ChangedInterpreter(dlPath, d, s)
  }

  /** The slots in turn, each from what is there when its turn comes; false at the first text that is too long. */
  function RewriteAll(prefix: Bytes, d: Bytes, slots: seq<Slot>): (Bytes, bool)
    decreases |slots|
  {
    if slots == [] then (d, true)
    else
      var s := slots[0];
      var text := NewText(prefix, ReadAt(d, s.off, s.size));
      if |text| >= s.size then (d, false)
      else RewriteAll(prefix, WriteAt(d, s.off, Pad(text, s.size)), slots[1..])
  }

  const PATH_MAX := 4096

  function Chunks(off: nat, size: nat, from: nat): seq<Slot>
    decreases size - from
  {
    if from + PATH_MAX > size then [] else [Slot(off + from, PATH_MAX)] + Chunks(off, size, from + PATH_MAX)
  }

  /** What is rewritten for one row of the section table. */
  function SlotsOf(strtab: Bytes, s: Section): seq<Slot> {
    if s.kind != 1 then []
    else if NameAt(strtab, s.name) == Ascii(".ldsocache") then [Slot(s.offset, s.size)]
    else if NameAt(strtab, s.name) == Ascii(".gccrelocprefix") then Chunks(s.offset, s.size, 0)
    else []
  }

  /** `sysdirs` with its place, and the place of `sysdirslen`, as far as the sections seen so far set them. */
  datatype Dirs = Dirs(at: Option<Slot>, text: Bytes, lens: Option<Slot>)

  const NO_DIRS := Dirs(None, [], None)

  predicate IsDirs(strtab: Bytes, s: Section) {
    s.kind == 1 && NameAt(strtab, s.name) == Ascii(".sysdirs")
  }

  predicate IsDirsLen(strtab: Bytes, s: Section) {
    s.kind == 1 && NameAt(strtab, s.name) == Ascii(".sysdirslen")
  }

  /** What one row of the section table does to them; the last section of a name counts. */
  function Noted(strtab: Bytes, s: Section, d: Bytes, dirs: Dirs): Dirs {
    if IsDirs(strtab, s) then dirs.(at := Some(Slot(s.offset, s.size)), text := ReadAt(d, s.offset, s.size))
    else if IsDirsLen(strtab, s) then dirs.(lens := Some(Slot(s.offset, s.size)))
    else dirs
  }

  /** `split(b"\0")` */
  function SplitNul(s: Bytes): (parts: seq<Bytes>)
    decreases |s|
  {
    var z := FindNul(s, 0);
    if z == -1 then [s] else [s[..z]] + SplitNul(s[z + 1..])
  }

  /** The parts before the first empty one. */
  function Leading(parts: seq<Bytes>): seq<Bytes> {
    if parts == [] || parts[0] == [] then [] else [parts[0]] + Leading(parts[1..])
  }

  function Paths(text: Bytes): seq<Bytes> {
    Leading(SplitNul(text))
  }

  /** The paths with the prefix substituted, each with a NUL after it. */
  function NewDirs(prefix: Bytes, paths: seq<Bytes>): Bytes {
    if paths == [] then []
    else NewDirs(prefix, paths[..|paths| - 1]) + (Substitute(prefix, paths[|paths| - 1]) + [0])
  }

  /** `struct.pack`, little endian whatever the file is. */
  function Encode(n: nat, size: nat): (b: Bytes)
    ensures |b| == size
  {
    if size == 0 then [] else [n % 256] + Encode(n / 256, size - 1)
  }

  function LengthSize(e: Elf): nat {
    if e.wide then 8 else 4
  }

  function Lengths(e: Elf, prefix: Bytes, paths: seq<Bytes>): Bytes {
    if paths == [] then []
    else Lengths(e, prefix, paths[..|paths| - 1]) + Encode(|Substitute(prefix, paths[|paths| - 1])|, LengthSize(e))
  }

  /** The smallest number that `struct.pack` refuses. */
  function TooLong(e: Elf): nat {
    if e.wide then 0x1_0000_0000_0000_0000 else 0x1_0000_0000
  }

  predicate LengthsFit(e: Elf, prefix: Bytes, paths: seq<Bytes>) {
    forall p | p in paths :: |Substitute(prefix, p)| < TooLong(e)
  }

  /**
   What follows the loop: without `.sysdirs` nothing; with it but without `.sysdirslen` a name that was never set
   is read. There is no check that the new texts fit their sections.
   */
  function WithDirs(e: Elf, prefix: Bytes, d: Bytes, dirs: Dirs): (Bytes, Outcome) {
    if dirs.at.None? then (d, Done(true))
    else if dirs.lens.None? then (d, Raised)
    else
      var paths := Paths(dirs.text);
      if !LengthsFit(e, prefix, paths) then (d, Raised)
      else
        var d1 := WriteAt(d, dirs.at.value.off, Pad(NewDirs(prefix, paths), dirs.at.value.size));
        (WriteAt(d1, dirs.lens.value.off, Lengths(e, prefix, paths)), Done(true))
  }

  /** The rows of the section header table from `i` on. */
  function Sections(e: Elf, prefix: Bytes, strtab: Bytes, d: Bytes, i: nat): (Bytes, Outcome)
    decreases e.shnum - i
  {
    if i >= e.shnum then (d, Done(true))
    else
      match SectionAt(e, d, i)
      case None => (d, Raised)
      case Some(s) =>
        var (d1, fits) := RewriteAll(prefix, d, SlotsOf(strtab, s));
        if !fits then (d1, Exited) else Sections(e, prefix, strtab, d1, i + 1)
  }

  /** What the loop over the section table notes on its way. */
  function DirsOf(e: Elf, prefix: Bytes, strtab: Bytes, d: Bytes, i: nat, dirs: Dirs): Dirs
    decreases e.shnum - i
  {
    if i >= e.shnum || SectionAt(e, d, i).None? then dirs
    else
      var s := SectionAt(e, d, i).value;
      DirsOf(e, prefix, strtab, RewriteAll(prefix, d, SlotsOf(strtab, s)).0, i + 1, Noted(strtab, s, d, dirs))
  }

  function ChangedSections(e: Elf, prefix: Bytes, d: Bytes): (Bytes, Outcome) {
    match SectionAt(e, d, e.shstrndx)
    case None => (d, Raised)
    case Some(s) =>
      var strtab := ReadAt(d, s.offset, s.size);
      var (d1, r) := Sections(e, prefix, strtab, d, 0);
      if !r.Done? then (d1, r) else WithDirs(e, prefix, d1, DirsOf(e, prefix, strtab, d, 0, NO_DIRS))
  }

  function Relocated(prefix: Bytes, dlPath: Bytes, d: Bytes): (Bytes, Outcome) {
    if |d| < 64 || ArchOf(ReadAt(d, 0, 16)).None? then (d, Done(true))
    else
      var e := ElfOf(ArchOf(ReadAt(d, 0, 16)).value, ReadAt(d, 0, 64));
      var (d1, r1) := Interpreter(e, dlPath, d, 0);
      if !r1.Done? then (d1, r1)
      else
        var (d2, r2) := ChangedSections(e, prefix, d1);
        (d2, if !r2.Done? then r2 else if |d2| != |d| then Exited else r1)
  }

  // ---- The script ------------------------------------------------------------------------------

  method GetArch(f: File) returns (r: Option<Arch>)
    requires |f.data| >= 64
    modifies f`pos
    ensures r == ArchOf(ReadAt(f.data, 0, 16))
  {
    f.Seek(0);
    var ident := f.Read(16);
    var little := ident[5] == 1;
    if ident[0] != 0x7f || ident[4] == 0 {
      return None;
    }
    if ident[4] == 1 {
      return Some(Arch(false, little));
    } else if ident[4] == 2 {
      return Some(Arch(true, little));
    }
    r := None;
  }

  method ReadRow(f: File, off: nat, i: nat, size: nat) returns (h: Bytes)
    modifies f`pos
    ensures h == RowAt(f.data, off, i, size)
  {
    RowsIsProduct(i, size);
    f.Seek(off + i * size);
    h := f.Read(size);
  }

  method ChangeInterpreter(f: File, e: Elf, dlPath: Bytes) returns (r: Outcome)
    modifies f
    ensures (f.data, r) == Interpreter(e, dlPath, old(f.data), 0)
  {
    for i := 0 to e.phnum
      invariant f.data == old(f.data)
      invariant Interpreter(e, dlPath, f.data, 0) == Interpreter(e, dlPath, f.data, i)
    {
      var h := ReadRow(f, e.phoff, i, e.phentsize);
      var segment := SegmentOf(e, h);
      if segment.None? {
        return Raised;
      }
      if segment.value.kind == 3 {
        r := ChangeSegment(f, dlPath, segment.value);
        return;
      }
    }
    r := Done(true);
  }

  method ChangeSegment(f: File, dlPath: Bytes, s: Segment) returns (r: Outcome)
    modifies f
    ensures (f.data, r) == ChangedInterpreter(dlPath, old(f.data), s)
  {
    f.Seek(s.offset);
    var fname := f.Read(11);
    if Native(fname) || s.filesz == 0 {
      return Done(true);
    }
    if |dlPath| >= s.filesz {
      return Done(false);
    }
    f.Seek(s.offset);
    f.Write(dlPath + Zeros(s.filesz - |dlPath|));
    r := Done(true);
  }

  /** One slot whose old text has just been read. */
  method WriteBack(f: File, prefix: Bytes, s: Slot, old_: Bytes) returns (fits: bool)
    requires old_ == ReadAt(f.data, s.off, s.size)
    modifies f
    ensures (f.data, fits) == RewriteAll(prefix, old(f.data), [s])
    ensures fits ==> f.pos == s.off + s.size
  {
    var text := Strip(Substitute(prefix, old_));
    if |text| >= s.size {
      return false;
    }
    text := text + Zeros(s.size - |text|);
    f.Seek(s.off);
    f.Write(text);
    fits := true;
  }

  function Held(d: Bytes, s: Slot): Bytes {
    ReadAt(d, s.off, s.size)
  }

  lemma {:induction false} RewriteAllConcat(prefix: Bytes, d: Bytes, a: seq<Slot>, b: seq<Slot>)
    ensures var (d1, fits) := RewriteAll(prefix, d, a);
            RewriteAll(prefix, d, a + b) == if fits then RewriteAll(prefix, d1, b) else (d1, false)
    decreases |a|
  {
    if a == [] {
      assert a + b == b;
    } else {
      assert (a + b)[1..] == a[1..] + b;
      var text := NewText(prefix, Held(d, a[0]));
      if |text| < a[0].size {
        RewriteAllConcat(prefix, WriteAt(d, a[0].off, Pad(text, a[0].size)), a[1..], b);
      }
    }
  }

  /** The chunks of a section from offset `from` on. */
  function RewriteChunks(prefix: Bytes, d: Bytes, off: nat, size: nat, from: nat): (Bytes, bool) {
    RewriteAll(prefix, d, Chunks(off, size, from))
  }

  lemma ChunksStep(prefix: Bytes, d: Bytes, off: nat, size: nat, from: nat)
    requires from + PATH_MAX <= size
    ensures var (d1, fits) := RewriteAll(prefix, d, [Slot(off + from, PATH_MAX)]);
            RewriteChunks(prefix, d, off, size, from)
            == if fits then RewriteChunks(prefix, d1, off, size, from + PATH_MAX) else (d1, false)
  {
    RewriteAllConcat(prefix, d, [Slot(off + from, PATH_MAX)], Chunks(off, size, from + PATH_MAX));
  }

  lemma ChunksEnd(prefix: Bytes, d: Bytes, off: nat, size: nat, from: nat)
    requires from + PATH_MAX > size
    ensures RewriteChunks(prefix, d, off, size, from) == (d, true)
  {
  }

  /** The 4096-byte loop: it reads on from where the last write ended, and that is the next path. */
  method ChangePrefixes(f: File, prefix: Bytes, off: nat, size: nat) returns (fits: bool)
    requires f.pos == off
    modifies f
    ensures (f.data, fits) == RewriteChunks(prefix, old(f.data), off, size, 0)
  {
    var offset := 0;
    while offset + PATH_MAX <= size
      invariant f.pos == off + offset
      invariant RewriteChunks(prefix, old(f.data), off, size, 0) == RewriteChunks(prefix, f.data, off, size, offset)
    {
      fits := ChangePath(f, prefix, off, size, offset);
      if !fits {
        return;
      }
      offset := offset + PATH_MAX;
    }
    ChunksEnd(prefix, f.data, off, size, offset);
    fits := true;
  }

  /** One path of the loop. */
  method ChangePath(f: File, prefix: Bytes, off: nat, size: nat, offset: nat) returns (fits: bool)
    requires f.pos == off + offset && offset + PATH_MAX <= size
    modifies f
    ensures RewriteChunks(prefix, old(f.data), off, size, offset)
         == if fits then RewriteChunks(prefix, f.data, off, size, offset + PATH_MAX) else (f.data, false)
    ensures fits ==> f.pos == off + (offset + PATH_MAX)
  {
    ChunksStep(prefix, f.data, off, size, offset);
    var path := f.Read(PATH_MAX);
    fits := WriteBack(f, prefix, Slot(off + offset, PATH_MAX), path);
  }

  /** One row of the section table. */
  method ChangeSection(f: File, prefix: Bytes, strtab: Bytes, s: Section, dirs: Dirs) returns (fits: bool, noted: Dirs)
    modifies f
    ensures (f.data, fits) == RewriteAll(prefix, old(f.data), SlotsOf(strtab, s))
    ensures noted == Noted(strtab, s, old(f.data), dirs)
  {
    fits, noted := true, dirs;
    if s.kind == 1 {
      var name := NameAt(strtab, s.name);
      NamesDiffer();
      f.Seek(s.offset);
      if name == Ascii(".sysdirs") {
        var text := f.Read(s.size);
        noted := noted.(at := Some(Slot(s.offset, s.size)), text := text);
      } else if name == Ascii(".sysdirslen") {
        noted := noted.(lens := Some(Slot(s.offset, s.size)));
      } else if name == Ascii(".ldsocache") {
        var path := f.Read(s.size);
        fits := WriteBack(f, prefix, Slot(s.offset, s.size), path);
      } else if name == Ascii(".gccrelocprefix") {
        fits := ChangePrefixes(f, prefix, s.offset, s.size);
      }
    }
  }

  /** The four section names are of different length. */
  lemma NamesDiffer()
    ensures |Ascii(".sysdirs")| == 8 && |Ascii(".sysdirslen")| == 11
    ensures |Ascii(".ldsocache")| == 10 && |Ascii(".gccrelocprefix")| == 15
  {
  }

  method ChangeSections(f: File, e: Elf, prefix: Bytes) returns (r: Outcome)
    modifies f
    ensures (f.data, r) == ChangedSections(e, prefix, old(f.data))
  {
    var h := ReadRow(f, e.shoff, e.shstrndx, e.shentsize);
    var strings := SectionOf(e, h);
    if strings.None? {
      return Raised;
    }
    f.Seek(strings.value.offset);
    var strtab := f.Read(strings.value.size);
    var dirs;
    r, dirs := ChangeRows(f, e, prefix, strtab);
    if !r.Done? {
      return;
    }
    r := ChangeDirs(f, e, prefix, dirs);
  }

  method ChangeRows(f: File, e: Elf, prefix: Bytes, strtab: Bytes) returns (r: Outcome, dirs: Dirs)
    modifies f
    ensures (f.data, r) == Sections(e, prefix, strtab, old(f.data), 0)
    ensures r.Done? ==> r.ok && dirs == DirsOf(e, prefix, strtab, old(f.data), 0, NO_DIRS)
  {
    dirs := NO_DIRS;
    for i := 0 to e.shnum
      invariant Sections(e, prefix, strtab, old(f.data), 0) == Sections(e, prefix, strtab, f.data, i)
      invariant DirsOf(e, prefix, strtab, old(f.data), 0, NO_DIRS) == DirsOf(e, prefix, strtab, f.data, i, dirs)
    {
      var h := ReadRow(f, e.shoff, i, e.shentsize);
      var section := SectionOf(e, h);
      if section.None? {
        return Raised, dirs;
      }
      var fits;
      fits, dirs := ChangeSection(f, prefix, strtab, section.value, dirs);
      if !fits {
        return Exited, dirs;
      }
    }
    r := Done(true);
  }

  /** The paths up to the first empty one are rewritten one after the other, and their lengths with them. */
  method ChangeDirs(f: File, e: Elf, prefix: Bytes, dirs: Dirs) returns (r: Outcome)
    modifies f
    ensures (f.data, r) == WithDirs(e, prefix, old(f.data), dirs)
  {
    if dirs.at.None? {
      return Done(true);
    }
    if dirs.lens.None? {
      return Raised;
    }
    var ok, text, lens := RewriteDirs(e, prefix, dirs.text);
    if !ok {
      return Raised;
    }
    text := Pad(text, dirs.at.value.size);
    f.Seek(dirs.at.value.off);
    f.Write(text);
    f.Seek(dirs.lens.value.off);
    f.Write(lens);
    r := Done(true);
  }

  /** The first `i` parts are paths, and the other paths are the leading ones of the other parts. */
  predicate PathsSoFar(parts: seq<Bytes>, paths: seq<Bytes>, i: nat) {
    i <= |paths| && i <= |parts| && paths[..i] == parts[..i] && paths[i..] == Leading(parts[i..])
  }

  lemma NextPath(parts: seq<Bytes>, paths: seq<Bytes>, i: nat)
    requires PathsSoFar(parts, paths, i) && i < |parts|
    ensures if parts[i] == [] then i == |paths|
            else i < |paths| && paths[i] == parts[i] && PathsSoFar(parts, paths, i + 1)
  {
    assert parts[i..][0] == parts[i] && parts[i..][1..] == parts[i + 1..];
    if parts[i] != [] {
      assert paths[i..][0] == parts[i] && paths[i..][1..] == paths[i + 1..];
    }
  }

  lemma OnePathMore(e: Elf, prefix: Bytes, paths: seq<Bytes>, i: nat)
    requires i < |paths|
    ensures NewDirs(prefix, paths[..i + 1]) == NewDirs(prefix, paths[..i]) + (Substitute(prefix, paths[i]) + [0])
    ensures Lengths(e, prefix, paths[..i + 1])
            == Lengths(e, prefix, paths[..i]) + Encode(|Substitute(prefix, paths[i])|, LengthSize(e))
    ensures LengthsFit(e, prefix, paths[..i + 1]) <==>
            LengthsFit(e, prefix, paths[..i]) && |Substitute(prefix, paths[i])| < TooLong(e)
  {
    assert paths[..i + 1][..i] == paths[..i] && paths[..i + 1] == paths[..i] + [paths[i]];
  }

  /** False is the error of `struct.pack`. */
  method RewriteDirs(e: Elf, prefix: Bytes, text: Bytes) returns (ok: bool, dirs: Bytes, lens: Bytes)
    ensures ok <==> LengthsFit(e, prefix, Paths(text))
    ensures ok ==> dirs == NewDirs(prefix, Paths(text)) && lens == Lengths(e, prefix, Paths(text))
  {
    var parts := SplitNul(text);
    ghost var paths := Paths(text);
    dirs, lens := [], [];
    for i := 0 to |parts|
      invariant PathsSoFar(parts, paths, i)
      invariant dirs == NewDirs(prefix, paths[..i]) && lens == Lengths(e, prefix, paths[..i])
      invariant LengthsFit(e, prefix, paths[..i])
    {
      NextPath(parts, paths, i);
      if parts[i] == [] {
        assert paths[..i] == paths;
        return true, dirs, lens;
      }
      OnePathMore(e, prefix, paths, i);
      var path := Substitute(prefix, parts[i]);
      if |path| >= TooLong(e) {
        assert paths[i] in paths;
        return false, dirs, lens;
      }
      dirs := dirs + (path + [0]);
      lens := lens + Encode(|path|, LengthSize(e));
    }
    assert parts[|parts|..] == [] && paths[..|paths|] == paths;
    ok := true;
  }

  /** One executable of the list, from opening it to the size check. */
  method Relocate(f: File, prefix: Bytes, dlPath: Bytes) returns (r: Outcome)
    modifies f
    ensures (f.data, r) == Relocated(prefix, dlPath, old(f.data))
    ensures r.Done? ==> |f.data| == |old(f.data)|
  {
    var oldSize := |f.data|;
    r := Done(true);
    if oldSize >= 64 {
      var arch := GetArch(f);
      if arch.Some? {
        f.Seek(0);
        var h := f.Read(64);
        var e := ElfOf(arch.value, h);
        r := ChangeInterpreter(f, e, dlPath);
        if !r.Done? {
          return;
        }
        var r2 := ChangeSections(f, e, prefix);
        if !r2.Done? {
          return r2;
        }
      }
    }
    if oldSize != |f.data| {
      r := Exited;
    }
  }

  // ---- Lengths -----------------------------------------------------------------------------------

  function Power(n: nat): nat {
    if n == 0 then 1 else 256 * Power(n - 1)
  }

  /** What is packed reads back as the number, read little endian. */
  lemma {:induction false} EncodeNumber(n: nat, size: nat)
    requires n < Power(size)
    ensures Number(Encode(n, size), true) == n
  {
    if size > 0 {
      assert n / 256 < Power(size - 1);
      EncodeNumber(n / 256, size - 1);
      assert Encode(n, size)[1..] == Encode(n / 256, size - 1);
    }
  }

  /** A part of a part. */
  lemma SlicePart(a: Bytes, from: nat, n: nat, at: nat, size: nat)
    requires from + n <= |a| && at + size <= n
    ensures a[from..from + n][at..at + size] == a[from + at..from + at + size]
  {
    var x, y := a[from..from + n][at..at + size], a[from + at..from + at + size];
    assert |x| == |y|;
    forall k | 0 <= k < |x| ensures x[k] == y[k] {
      assert x[k] == a[from..from + n][at + k];
    }
  }

  /** The `k`-th length on disk is the length of the `k`-th new path. */
  lemma {:induction false} LengthAt(e: Elf, prefix: Bytes, paths: seq<Bytes>, k: nat)
    requires k < |paths| && LengthsFit(e, prefix, paths)
    ensures var w, at := LengthSize(e), Rows(k, LengthSize(e));
            && at + w <= |Lengths(e, prefix, paths)|
            && Number(Lengths(e, prefix, paths)[at..at + w], true) == |Substitute(prefix, paths[k])|
    decreases |paths|
  {
    var n, w := |paths| - 1, LengthSize(e);
    var front, last := Lengths(e, prefix, paths[..n]), Encode(|Substitute(prefix, paths[n])|, w);
    assert Lengths(e, prefix, paths) == front + last;
    LengthsSize(e, prefix, paths[..n]);
    if k == n {
      assert (front + last)[|front|..|front| + w] == last;
      assert paths[n] in paths;
      PowerSize(e);
      EncodeNumber(|Substitute(prefix, paths[n])|, w);
    } else {
      LengthAt(e, prefix, paths[..n], k);
      FrontPart(front, last, Rows(k, w), w);
    }
  }

  lemma FrontPart(front: Bytes, last: Bytes, at: nat, size: nat)
    requires at + size <= |front|
    ensures (front + last)[at..at + size] == front[at..at + size]
  {
  }

  lemma PowerSize(e: Elf)
    ensures Power(LengthSize(e)) == TooLong(e)
  {
    assert Power(4) == 0x1_0000_0000 by { assert Power(2) == 0x1_0000; assert Power(3) == 0x100_0000; }
    assert Power(5) == 0x100_0000_0000 && Power(6) == 0x1_0000_0000_0000 && Power(7) == 0x100_0000_0000_0000;
  }

  lemma {:induction false} LengthsSize(e: Elf, prefix: Bytes, paths: seq<Bytes>)
    ensures |Lengths(e, prefix, paths)| == Rows(|paths|, LengthSize(e))
  {
    if paths != [] {
      LengthsSize(e, prefix, paths[..|paths| - 1]);
    }
  }

  // ---- Substitution ------------------------------------------------------------------------------

  /** The marker does not start anywhere in `s`. */
  predicate Unmarked(s: Bytes) {
    forall k | 0 <= k < |s| :: !(MARKER <= s[k..])
  }

  lemma {:induction false} SubstituteUnmarked(prefix: Bytes, s: Bytes)
    requires Unmarked(s)
    ensures Substitute(prefix, s) == s
    decreases |s|
  {
    if |s| >= |MARKER| {
      MarkerLength();
      assert s[0..] == s;
      forall k | 0 <= k < |s[1..]| ensures !(MARKER <= s[1..][k..]) {
        assert s[1..][k..] == s[k + 1..];
      }
      SubstituteUnmarked(prefix, s[1..]);
    }
  }

  /** Text up to the first marker is kept, the marker is replaced, and the rest is treated alike. */
  lemma {:induction false} SubstituteFirst(prefix: Bytes, before: Bytes, rest: Bytes)
    requires forall k | 0 <= k < |before| :: !(MARKER <= (before + MARKER + rest)[k..])
    ensures Substitute(prefix, before + MARKER + rest) == before + prefix + Substitute(prefix, rest)
    decreases |before|
  {
    MarkerLength();
    var s := before + MARKER + rest;
    if before == [] {
      assert s == MARKER + rest && s[|MARKER|..] == rest;
    } else {
      var tail := before[1..] + MARKER + rest;
      assert s[1..] == tail;
      forall k | 0 <= k < |before[1..]| ensures !(MARKER <= tail[k..]) {
        assert tail[k..] == s[k + 1..];
      }
      SubstituteFirst(prefix, before[1..], rest);
      SubstituteSkip(prefix, s);
      ConsAssociate(before, prefix, Substitute(prefix, rest));
    }
  }

  lemma SubstituteSkip(prefix: Bytes, s: Bytes)
    requires |s| >= |MARKER| && !(MARKER <= s[0..])
    ensures s != [] && Substitute(prefix, s) == [s[0]] + Substitute(prefix, s[1..])
  {
    MarkerLength();
    assert s[0..] == s;
  }

  lemma ConsAssociate(a: Bytes, b: Bytes, c: Bytes)
    requires a != []
    ensures [a[0]] + (a[1..] + b + c) == a + b + c
  {
  }
}
