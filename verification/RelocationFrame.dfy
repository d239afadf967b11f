/** On well-formed files the relocation rewrites exactly its slots, each from its own old bytes. */
module RelocationFrame {
  import opened Prelude
  import opened Relocation

  // ---- Slots that do not meet --------------------------------------------------------------------

  predicate Inside(d: Bytes, s: Slot) {
    s.off + s.size <= |d|
  }

  predicate Apart(s: Slot, t: Slot) {
    s.off + s.size <= t.off || t.off + t.size <= s.off
  }

  predicate AllApart(slots: seq<Slot>, t: Slot) {
    forall k | 0 <= k < |slots| :: Apart(slots[k], t)
  }

  predicate Disjoint(slots: seq<Slot>) {
    forall j, k | 0 <= j < k < |slots| :: Apart(slots[j], slots[k])
  }

  predicate AllInside(d: Bytes, slots: seq<Slot>) {
    forall k | 0 <= k < |slots| :: Inside(d, slots[k])
  }

  lemma WriteFrame(d: Bytes, s: Slot, b: Bytes, t: Slot)
    requires Inside(d, s) && |b| == s.size && Apart(s, t)
    ensures |WriteAt(d, s.off, b)| == |d| && Held(WriteAt(d, s.off, b), t) == Held(d, t)
  {
  }

  lemma WriteHeld(d: Bytes, s: Slot, b: Bytes)
    requires Inside(d, s) && |b| == s.size
    ensures Held(WriteAt(d, s.off, b), s) == b
  {
  }

  /** Whatever lies apart from the slots is kept, however far the rewriting gets. */
  lemma {:induction false} RewriteAllFrame(prefix: Bytes, d: Bytes, slots: seq<Slot>, t: Slot)
    requires AllInside(d, slots) && AllApart(slots, t)
    ensures var d' := RewriteAll(prefix, d, slots).0; |d'| == |d| && Held(d', t) == Held(d, t)
    decreases |slots|
  {
    if slots != [] {
      var s := slots[0];
      var text := NewText(prefix, Held(d, s));
      if |text| < s.size {
        WriteFrame(d, s, Pad(text, s.size), t);
        RewriteAllFrame(prefix, WriteAt(d, s.off, Pad(text, s.size)), slots[1..], t);
      }
    }
  }

  predicate Fits(prefix: Bytes, d: Bytes, s: Slot) {
    |NewText(prefix, Held(d, s))| < s.size
  }

  predicate AllFit(prefix: Bytes, d: Bytes, slots: seq<Slot>) {
    forall k | 0 <= k < |slots| :: Fits(prefix, d, slots[k])
  }

  /** In `d'` the slot holds its own old text with the prefix substituted, and NULs to its end. */
  predicate Rewritten(prefix: Bytes, d: Bytes, d': Bytes, s: Slot) {
    Held(d', s) == Pad(NewText(prefix, Held(d, s)), s.size)
  }

  predicate AllRewritten(prefix: Bytes, d: Bytes, d': Bytes, slots: seq<Slot>) {
    forall k | 0 <= k < |slots| :: Rewritten(prefix, d, d', slots[k])
  }

  /** The first of several disjoint slots is rewritten before the others, and neither sees the other. */
  lemma FirstSlot(prefix: Bytes, d: Bytes, slots: seq<Slot>, d1: Bytes)
    requires AllInside(d, slots) && Disjoint(slots) && slots != [] && Fits(prefix, d, slots[0])
    requires d1 == WriteAt(d, slots[0].off, Pad(NewText(prefix, Held(d, slots[0])), slots[0].size))
    ensures |d1| == |d| && AllInside(d1, slots[1..]) && Disjoint(slots[1..])
    ensures Rewritten(prefix, d, RewriteAll(prefix, d1, slots[1..]).0, slots[0])
    ensures forall k | 0 < k < |slots| :: Held(d1, slots[k]) == Held(d, slots[k])
  {
    var s, rest := slots[0], slots[1..];
    var text := Pad(NewText(prefix, Held(d, s)), s.size);
    WriteHeld(d, s, text);
    forall k | 0 < k < |slots| ensures Held(d1, slots[k]) == Held(d, slots[k]) && Apart(slots[k], s) {
      WriteFrame(d, s, text, slots[k]);
    }
    forall k | 0 <= k < |rest| ensures rest[k] == slots[k + 1] {}
    RewriteAllFrame(prefix, d1, rest, s);
  }

  /**
   Disjoint slots do not disturb each other: it works iff each text fits, and each slot has its own rewritten text.
   */
  lemma {:induction false} RewriteAllExact(prefix: Bytes, d: Bytes, slots: seq<Slot>)
    requires AllInside(d, slots) && Disjoint(slots)
    ensures RewriteAll(prefix, d, slots).1 <==> AllFit(prefix, d, slots)
    ensures AllFit(prefix, d, slots) ==>
              AllRewritten(prefix, d, RewriteAll(prefix, d, slots).0, slots)
    decreases |slots|
  {
    if slots != [] {
      if Fits(prefix, d, slots[0]) {
        var rest := slots[1..];
        var d1 := WriteAt(d, slots[0].off, Pad(NewText(prefix, Held(d, slots[0])), slots[0].size));
        FirstSlot(prefix, d, slots, d1);
        RewriteAllExact(prefix, d1, rest);
        RestExact(prefix, d, d1, slots, RewriteAll(prefix, d1, rest).0);
      } else {
        assert !Fits(prefix, d, slots[0]);
      }
    }
  }

  lemma RestExact(prefix: Bytes, d: Bytes, d1: Bytes, slots: seq<Slot>, d': Bytes)
    requires slots != [] && Fits(prefix, d, slots[0]) && Rewritten(prefix, d, d', slots[0])
    requires forall k | 0 < k < |slots| :: Held(d1, slots[k]) == Held(d, slots[k])
    ensures AllFit(prefix, d1, slots[1..]) <==> AllFit(prefix, d, slots)
    ensures AllRewritten(prefix, d1, d', slots[1..]) ==> AllRewritten(prefix, d, d', slots)
  {
    var rest := slots[1..];
    assert slots == [slots[0]] + rest;
    forall k | 0 <= k < |rest| ensures Held(d1, rest[k]) == Held(d, rest[k]) {
      assert rest[k] == slots[k + 1];
    }
    SameTexts(prefix, d, d1, rest, d');
    FirstAndRest(prefix, d, slots[0], rest, d');
  }

  lemma SameTexts(prefix: Bytes, d: Bytes, d1: Bytes, slots: seq<Slot>, d': Bytes)
    requires forall k | 0 <= k < |slots| :: Held(d1, slots[k]) == Held(d, slots[k])
    ensures AllFit(prefix, d1, slots) <==> AllFit(prefix, d, slots)
    ensures AllRewritten(prefix, d1, d', slots) ==> AllRewritten(prefix, d, d', slots)
  {
    forall k | 0 <= k < |slots|
      ensures Fits(prefix, d1, slots[k]) <==> Fits(prefix, d, slots[k])
      ensures Rewritten(prefix, d1, d', slots[k]) <==> Rewritten(prefix, d, d', slots[k])
    {
    }
  }

  lemma FirstAndRest(prefix: Bytes, d: Bytes, s: Slot, rest: seq<Slot>, d': Bytes)
    ensures AllFit(prefix, d, [s] + rest) <==> Fits(prefix, d, s) && AllFit(prefix, d, rest)
    ensures AllRewritten(prefix, d, d', [s] + rest) <==>
            Rewritten(prefix, d, d', s) && AllRewritten(prefix, d, d', rest)
  {
    FirstFits(prefix, d, s, rest);
    FirstRewritten(prefix, d, s, rest, d');
  }

  lemma FirstFits(prefix: Bytes, d: Bytes, s: Slot, rest: seq<Slot>)
    ensures AllFit(prefix, d, [s] + rest) <==> Fits(prefix, d, s) && AllFit(prefix, d, rest)
  {
    var slots := [s] + rest;
    assert slots[0] == s && forall k | 0 <= k < |rest| :: slots[k + 1] == rest[k];
  }

  lemma FirstRewritten(prefix: Bytes, d: Bytes, s: Slot, rest: seq<Slot>, d': Bytes)
    ensures AllRewritten(prefix, d, d', [s] + rest) <==>
            Rewritten(prefix, d, d', s) && AllRewritten(prefix, d, d', rest)
  {
    var slots := [s] + rest;
    assert slots[0] == s && forall k | 0 <= k < |rest| :: slots[k + 1] == rest[k];
  }

  // ---- A well-formed file ------------------------------------------------------------------------

  /** The slots of a section table from row `i` on. */
  function AllSlots(strtab: Bytes, table: seq<Section>, i: nat): seq<Slot>
    requires i <= |table|
    decreases |table| - i
  {
    if i == |table| then [] else SlotsOf(strtab, table[i]) + AllSlots(strtab, table, i + 1)
  }

  function TableOf(e: Elf, d: Bytes): seq<Section> {
    seq(e.shnum, i requires 0 <= i < e.shnum => SectionAt(e, d, i).GetOr(Section(0, 0, 0, 0)))
  }

  /** The slot of the first interpreter from row `i` on, if it is to be rewritten. */
  function InterpreterSlots(e: Elf, d: Bytes, i: nat): (r: seq<Slot>)
    ensures |r| <= 1
    decreases e.phnum - i
  {
    if i >= e.phnum then []
    else
      match SegmentAt(e, d, i)
      case None => []
      case Some(s) =>
        if s.kind != 3 then InterpreterSlots(e, d, i + 1)
        else if Native(ReadAt(d, s.offset, 11)) || s.filesz == 0 then []
        else [Slot(s.offset, s.filesz)]
  }

  predicate HasHeader(d: Bytes) {
    |d| >= 64 && ArchOf(ReadAt(d, 0, 16)).Some?
  }

  function HeaderOf(d: Bytes): Elf
    requires HasHeader(d)
  {
    ElfOf(ArchOf(ReadAt(d, 0, 16)).value, ReadAt(d, 0, 64))
  }

  function SectionTable(e: Elf): Slot {
    Slot(e.shoff, Rows(e.shnum, e.shentsize))
  }

  /** Both header tables have entries of the standard size and lie in the file; one section holds the names. */
  predicate TablesOk(e: Elf, d: Bytes) {
    && e.phentsize == (if e.wide then 56 else 32) && e.phoff + Rows(e.phnum, e.phentsize) <= |d|
    && e.shentsize == (if e.wide then 64 else 40) && Inside(d, SectionTable(e)) && e.shstrndx < e.shnum
  }

  function StringTable(e: Elf, d: Bytes): Slot
    requires TablesOk(e, d)
  {
    var s := TableOf(e, d)[e.shstrndx];
    Slot(s.offset, s.size)
  }

  function SectionSlots(e: Elf, d: Bytes): seq<Slot>
    requires TablesOk(e, d)
  {
    AllSlots(Held(d, StringTable(e, d)), TableOf(e, d), 0)
  }

  /** The `.sysdirs` and `.sysdirslen` sections of a table from row `i` on. */
  function DirSlots(strtab: Bytes, table: seq<Section>, i: nat): seq<Slot>
    requires i <= |table|
    decreases |table| - i
  {
    if i == |table| then []
    else
      (if IsDirs(strtab, table[i]) || IsDirsLen(strtab, table[i]) then [Slot(table[i].offset, table[i].size)] else [])
      + DirSlots(strtab, table, i + 1)
  }

  /** What the rows from `i` on say about them, read from one and the same file. */
  function StaticDirs(strtab: Bytes, table: seq<Section>, d: Bytes, i: nat, dirs: Dirs): Dirs
    requires i <= |table|
    decreases |table| - i
  {
    if i == |table| then dirs else StaticDirs(strtab, table, d, i + 1, Noted(strtab, table[i], d, dirs))
  }

  function DirSections(e: Elf, d: Bytes): seq<Slot>
    requires TablesOk(e, d)
  {
    DirSlots(Held(d, StringTable(e, d)), TableOf(e, d), 0)
  }

  function DirsIn(e: Elf, d: Bytes): Dirs
    requires TablesOk(e, d)
  {
    StaticDirs(Held(d, StringTable(e, d)), TableOf(e, d), d, 0, NO_DIRS)
  }

  /** Every slot of the file that may be rewritten in place. */
  function Slots(e: Elf, d: Bytes): seq<Slot>
    requires TablesOk(e, d)
  {
    InterpreterSlots(e, d, 0) + SectionSlots(e, d)
  }

  /**
   The slots lie in the file, apart from each other, from the section table and from the section names; and so do
   the sections of the library directories.
   */
  predicate WellFormed(d: Bytes) {
    && HasHeader(d)
    && var e := HeaderOf(d);
       && TablesOk(e, d) && Inside(d, StringTable(e, d))
       && AllInside(d, Slots(e, d)) && Disjoint(Slots(e, d))
       && AllApart(Slots(e, d), SectionTable(e)) && AllApart(Slots(e, d), StringTable(e, d))
       && AllInside(d, DirSections(e, d)) && AllFree(Slots(e, d), DirSections(e, d)) && DirsApart(DirsIn(e, d))
  }

  predicate AllFree(slots: seq<Slot>, others: seq<Slot>) {
    forall k | 0 <= k < |others| :: AllApart(slots, others[k])
  }

  predicate DirsApart(dirs: Dirs) {
    dirs.at.Some? && dirs.lens.Some? ==> Apart(dirs.at.value, dirs.lens.value)
  }

  lemma {:induction false} RowInside(i: nat, n: nat, size: nat)
    requires i < n
    ensures Rows(i, size) + size <= Rows(n, size)
    decreases n
  {
    if i < n - 1 {
      RowInside(i, n - 1, size);
    }
  }

  lemma PartKept(d: Bytes, d1: Bytes, t: Slot, at: nat, size: nat)
    requires Inside(d, t) && |d1| == |d| && Held(d1, t) == Held(d, t) && at + size <= t.size
    ensures ReadAt(d1, t.off + at, size) == ReadAt(d, t.off + at, size)
  {
    assert ReadAt(d1, t.off + at, size) == Held(d1, t)[at..at + size];
    assert ReadAt(d, t.off + at, size) == Held(d, t)[at..at + size];
  }

  /** A table that was kept has the same rows. */
  lemma RowKept(d: Bytes, d1: Bytes, off: nat, i: nat, n: nat, size: nat)
    requires i < n && off + Rows(n, size) <= |d| && |d1| == |d|
    requires Held(d1, Slot(off, Rows(n, size))) == Held(d, Slot(off, Rows(n, size)))
    ensures RowAt(d1, off, i, size) == RowAt(d, off, i, size) && |RowAt(d, off, i, size)| == size
  {
    RowInside(i, n, size);
    PartKept(d, d1, Slot(off, Rows(n, size)), Rows(i, size), size);
  }

  predicate IsTable(e: Elf, d: Bytes, table: seq<Section>) {
    |table| == e.shnum && forall k | 0 <= k < e.shnum :: SectionAt(e, d, k) == Some(table[k])
  }

  /** The table of a file whose table was kept is the same. */
  lemma TableKept(e: Elf, d: Bytes, d1: Bytes)
    requires TablesOk(e, d) && |d1| == |d| && Held(d1, SectionTable(e)) == Held(d, SectionTable(e))
    ensures IsTable(e, d, TableOf(e, d)) && IsTable(e, d1, TableOf(e, d))
  {
    forall k | 0 <= k < e.shnum ensures SectionAt(e, d, k) == SectionAt(e, d1, k) == Some(TableOf(e, d)[k]) {
      RowKept(d, d1, e.shoff, k, e.shnum, e.shentsize);
    }
  }

  lemma SplitSlots(d: Bytes, a: seq<Slot>, b: seq<Slot>, t: Slot)
    requires AllInside(d, a + b) && AllApart(a + b, t)
    ensures AllInside(d, a) && AllInside(d, b) && AllApart(a, t) && AllApart(b, t)
  {
    forall k | 0 <= k < |a| ensures Inside(d, a[k]) && Apart(a[k], t) {
      assert (a + b)[k] == a[k];
    }
    forall k | 0 <= k < |b| ensures Inside(d, b[k]) && Apart(b[k], t) {
      assert (a + b)[|a| + k] == b[k];
    }
  }

  /** The table can be worked through from row `i` on. */
  predicate Workable(e: Elf, strtab: Bytes, d: Bytes, table: seq<Section>, i: nat) {
    && TablesOk(e, d) && IsTable(e, d, table) && i <= e.shnum
    && AllInside(d, AllSlots(strtab, table, i)) && AllApart(AllSlots(strtab, table, i), SectionTable(e))
  }

  lemma PlanStep(e: Elf, prefix: Bytes, strtab: Bytes, d: Bytes, table: seq<Section>, i: nat)
      returns (d1: Bytes, fits: bool)
    requires Workable(e, strtab, d, table, i) && i < e.shnum
    ensures RewriteAll(prefix, d, AllSlots(strtab, table, i)) ==
            if fits then RewriteAll(prefix, d1, AllSlots(strtab, table, i + 1)) else (d1, false)
    ensures Sections(e, prefix, strtab, d, i) == if fits then Sections(e, prefix, strtab, d1, i + 1) else (d1, Exited)
    ensures Workable(e, strtab, d1, table, i + 1) && (d1, fits) == RewriteAll(prefix, d, SlotsOf(strtab, table[i]))
  {
    var here, rest := SlotsOf(strtab, table[i]), AllSlots(strtab, table, i + 1);
    SplitSlots(d, here, rest, SectionTable(e));
    RewriteAllConcat(prefix, d, here, rest);
    RewriteAllFrame(prefix, d, here, SectionTable(e));
    var r := RewriteAll(prefix, d, here);
    d1, fits := r.0, r.1;
    TableUnique(e, d, table);
    TableKept(e, d, d1);
    SectionsStep(e, prefix, strtab, d, i, table[i], d1, fits);
  }

  /** The loop over the section table works through the slots that were there at its start. */
  lemma {:induction false} SectionsArePlan(e: Elf, prefix: Bytes, strtab: Bytes, d: Bytes, table: seq<Section>, i: nat)
    requires Workable(e, strtab, d, table, i)
    ensures var (d', fits) := RewriteAll(prefix, d, AllSlots(strtab, table, i));
            Sections(e, prefix, strtab, d, i) == (d', if fits then Done(true) else Exited)
    decreases e.shnum - i
  {
    if i < e.shnum {
      var d1, fits := PlanStep(e, prefix, strtab, d, table, i);
      if fits {
        SectionsArePlan(e, prefix, strtab, d1, table, i + 1);
      }
    }
  }

  // ---- The library directories -------------------------------------------------------------------

  predicate AllHeld(d: Bytes, d1: Bytes, slots: seq<Slot>) {
    forall k | 0 <= k < |slots| :: Held(d1, slots[k]) == Held(d, slots[k])
  }

  lemma {:induction false} NotedSame(strtab: Bytes, table: seq<Section>, d: Bytes, d1: Bytes, i: nat, dirs: Dirs)
    requires i <= |table| && AllHeld(d, d1, DirSlots(strtab, table, i))
    ensures StaticDirs(strtab, table, d1, i, dirs) == StaticDirs(strtab, table, d, i, dirs)
    decreases |table| - i
  {
    if i < |table| {
      var all, rest := DirSlots(strtab, table, i), DirSlots(strtab, table, i + 1);
      forall k | 0 <= k < |rest| ensures Held(d1, rest[k]) == Held(d, rest[k]) {
        assert rest[k] == all[k + |all| - |rest|];
      }
      assert Noted(strtab, table[i], d1, dirs) == Noted(strtab, table[i], d, dirs) by {
        if IsDirs(strtab, table[i]) {
          assert all[0] == Slot(table[i].offset, table[i].size);
        }
      }
      NotedSame(strtab, table, d, d1, i + 1, Noted(strtab, table[i], d, dirs));
    }
  }

  /** The noted places are sections of the table, and the noted text is what the file holds there. */
  lemma {:induction false} StaticPlaces(strtab: Bytes, table: seq<Section>, d: Bytes, i: nat, dirs: Dirs)
    requires i <= |table| && (dirs.at.Some? ==> dirs.text == Held(d, dirs.at.value))
    ensures var r := StaticDirs(strtab, table, d, i, dirs);
            && (r.at.Some? ==> r.text == Held(d, r.at.value))
            && (r.at.Some? && r.at != dirs.at ==> r.at.value in DirSlots(strtab, table, i))
            && (r.lens.Some? && r.lens != dirs.lens ==> r.lens.value in DirSlots(strtab, table, i))
    decreases |table| - i
  {
    if i < |table| {
      StaticPlaces(strtab, table, d, i + 1, Noted(strtab, table[i], d, dirs));
    }
  }

  lemma FreeTail(a: seq<Slot>, b: seq<Slot>, others: seq<Slot>, rest: seq<Slot>)
    requires AllFree(a + b, others) && |rest| <= |others| && rest == others[|others| - |rest|..]
    ensures AllFree(a, others) && AllFree(b, rest)
  {
    forall k, j | 0 <= k < |others| && 0 <= j < |a| ensures Apart(a[j], others[k]) {
      assert AllApart(a + b, others[k]) && (a + b)[j] == a[j];
    }
    forall k, j | 0 <= k < |rest| && 0 <= j < |b| ensures Apart(b[j], rest[k]) {
      assert AllApart(a + b, others[k + |others| - |rest|]) && (a + b)[|a| + j] == b[j];
    }
  }

  lemma FreeKept(prefix: Bytes, d: Bytes, slots: seq<Slot>, others: seq<Slot>)
    requires AllInside(d, slots) && AllFree(slots, others)
    ensures AllHeld(d, RewriteAll(prefix, d, slots).0, others)
  {
    forall k | 0 <= k < |others| ensures Held(RewriteAll(prefix, d, slots).0, others[k]) == Held(d, others[k]) {
      RewriteAllFrame(prefix, d, slots, others[k]);
    }
  }

  /** Every text fits its slot when its turn comes. */
  predicate GoesThrough(prefix: Bytes, d: Bytes, slots: seq<Slot>) {
    RewriteAll(prefix, d, slots).1
  }

  /** The rest of the table can be worked through, and leaves the directory sections alone. */
  predicate DirsWorkable(e: Elf, prefix: Bytes, strtab: Bytes, d: Bytes, table: seq<Section>, i: nat) {
    && Workable(e, strtab, d, table, i) && GoesThrough(prefix, d, AllSlots(strtab, table, i))
    && AllFree(AllSlots(strtab, table, i), DirSlots(strtab, table, i))
  }

  lemma DirsStep(e: Elf, prefix: Bytes, strtab: Bytes, d: Bytes, table: seq<Section>, i: nat) returns (d1: Bytes)
    requires DirsWorkable(e, prefix, strtab, d, table, i) && i < e.shnum
    ensures d1 == RewriteAll(prefix, d, SlotsOf(strtab, table[i])).0
            && DirsWorkable(e, prefix, strtab, d1, table, i + 1)
    ensures AllHeld(d, d1, DirSlots(strtab, table, i + 1))
  {
    var here, rest := SlotsOf(strtab, table[i]), AllSlots(strtab, table, i + 1);
    var all, others := DirSlots(strtab, table, i), DirSlots(strtab, table, i + 1);
    var fits;
    d1, fits := PlanStep(e, prefix, strtab, d, table, i);
    SplitSlots(d, here, rest, SectionTable(e));
    FreeTail(here, rest, all, others);
    FreeKept(prefix, d, here, all);
    TailHeld(d, d1, all, others);
  }

  /** One row of the loop: what it notes is what the file said, and the other rows read the same before and after. */
  lemma NotedStep(e: Elf, prefix: Bytes, strtab: Bytes, d: Bytes, table: seq<Section>, i: nat, dirs: Dirs)
      returns (d1: Bytes, noted: Dirs)
    requires DirsWorkable(e, prefix, strtab, d, table, i) && i < e.shnum
    ensures DirsWorkable(e, prefix, strtab, d1, table, i + 1)
    ensures DirsOf(e, prefix, strtab, d, i, dirs) == DirsOf(e, prefix, strtab, d1, i + 1, noted)
    ensures StaticDirs(strtab, table, d, i, dirs) == StaticDirs(strtab, table, d1, i + 1, noted)
  {
    d1 := DirsStep(e, prefix, strtab, d, table, i);
    noted := Noted(strtab, table[i], d, dirs);
    NotedSame(strtab, table, d, d1, i + 1, noted);
    DirsOfStep(e, prefix, strtab, d, i, dirs, table[i]);
    assert StaticDirs(strtab, table, d, i, dirs) == StaticDirs(strtab, table, d, i + 1, noted);
  }

  lemma DirsOfStep(e: Elf, prefix: Bytes, strtab: Bytes, d: Bytes, i: nat, dirs: Dirs, s: Section)
    requires i < e.shnum && SectionAt(e, d, i) == Some(s)
    ensures DirsOf(e, prefix, strtab, d, i, dirs)
         == DirsOf(e, prefix, strtab, RewriteAll(prefix, d, SlotsOf(strtab, s)).0, i + 1, Noted(strtab, s, d, dirs))
  {
  }

  lemma NoMoreRows(e: Elf, prefix: Bytes, strtab: Bytes, d: Bytes, table: seq<Section>, i: nat, dirs: Dirs)
    requires DirsWorkable(e, prefix, strtab, d, table, i) && i >= e.shnum
    ensures DirsOf(e, prefix, strtab, d, i, dirs) == StaticDirs(strtab, table, d, i, dirs)
  {
  }

  /** What the loop notes while it rewrites is what the file said at its start. */
  lemma {:induction false} DirsArePlan(e: Elf, prefix: Bytes, strtab: Bytes, d: Bytes, table: seq<Section>, i: nat,
                                       dirs: Dirs)
    requires DirsWorkable(e, prefix, strtab, d, table, i)
    ensures DirsOf(e, prefix, strtab, d, i, dirs) == StaticDirs(strtab, table, d, i, dirs)
    decreases e.shnum - i
  {
    if i < e.shnum {
      var d1, noted := NotedStep(e, prefix, strtab, d, table, i, dirs);
      DirsArePlan(e, prefix, strtab, d1, table, i + 1, noted);
    } else {
      NoMoreRows(e, prefix, strtab, d, table, i, dirs);
    }
  }

  lemma TailHeld(d: Bytes, d1: Bytes, all: seq<Slot>, rest: seq<Slot>)
    requires AllHeld(d, d1, all) && |rest| <= |all| && rest == all[|all| - |rest|..]
    ensures AllHeld(d, d1, rest)
  {
    forall k | 0 <= k < |rest| ensures Held(d1, rest[k]) == Held(d, rest[k]) {
      assert rest[k] == all[k + |all| - |rest|];
    }
  }

  lemma TableUnique(e: Elf, d: Bytes, table: seq<Section>)
    requires IsTable(e, d, table)
    ensures table == TableOf(e, d)
  {
  }

  lemma SectionsStep(e: Elf, prefix: Bytes, strtab: Bytes, d: Bytes, i: nat, s: Section, d1: Bytes, fits: bool)
    requires i < e.shnum && SectionAt(e, d, i) == Some(s) && RewriteAll(prefix, d, SlotsOf(strtab, s)) == (d1, fits)
    ensures Sections(e, prefix, strtab, d, i) == if !fits then (d1, Exited) else Sections(e, prefix, strtab, d1, i + 1)
  {
  }

  predicate LoaderFits(dlPath: Bytes, loader: seq<Slot>) {
    loader == [] || |dlPath| < loader[0].size
  }

  predicate HoldsLoader(dlPath: Bytes, d: Bytes, loader: seq<Slot>) {
    loader == [] || Held(d, loader[0]) == Pad(dlPath, loader[0].size)
  }

  /** The file after the loader path was written to its slot, if there is one and the path fits. */
  function LoaderWritten(dlPath: Bytes, d: Bytes, slots: seq<Slot>): Bytes {
    if slots == [] || |dlPath| >= slots[0].size then d else WriteAt(d, slots[0].off, Pad(dlPath, slots[0].size))
  }

  lemma {:induction false} InterpreterIsPlan(e: Elf, dlPath: Bytes, d: Bytes, i: nat)
    requires TablesOk(e, d)
    ensures var loader := InterpreterSlots(e, d, i);
            Interpreter(e, dlPath, d, i) == (LoaderWritten(dlPath, d, loader), Done(LoaderFits(dlPath, loader)))
    decreases e.phnum - i
  {
    if i < e.phnum {
      RowKept(d, d, e.phoff, i, e.phnum, e.phentsize);
      var s := SegmentAt(e, d, i).value;
      if s.kind == 3 {
        assert Interpreter(e, dlPath, d, i) == ChangedInterpreter(dlPath, d, s);
      } else {
        InterpreterIsPlan(e, dlPath, d, i + 1);
      }
    }
  }

  lemma LoaderKeeps(dlPath: Bytes, d: Bytes, slots: seq<Slot>, t: Slot)
    requires |slots| <= 1 && AllInside(d, slots) && AllApart(slots, t)
    ensures var d1 := LoaderWritten(dlPath, d, slots); |d1| == |d| && Held(d1, t) == Held(d, t)
  {
    if slots != [] && |dlPath| < slots[0].size {
      WriteFrame(d, slots[0], Pad(dlPath, slots[0].size), t);
    }
  }

  lemma LoaderHeld(dlPath: Bytes, d: Bytes, slots: seq<Slot>)
    requires |slots| <= 1 && AllInside(d, slots) && LoaderFits(dlPath, slots)
    ensures HoldsLoader(dlPath, LoaderWritten(dlPath, d, slots), slots)
  {
    if slots != [] {
      WriteHeld(d, slots[0], Pad(dlPath, slots[0].size));
    }
  }

  // ---- The result ------------------------------------------------------------------------------

  lemma SlotsSplit(d: Bytes, a: seq<Slot>, b: seq<Slot>)
    requires AllInside(d, a + b) && Disjoint(a + b)
    ensures AllInside(d, a) && AllInside(d, b) && Disjoint(b)
    ensures forall k | 0 <= k < |b| :: AllApart(a, b[k])
    ensures forall k | 0 <= k < |a| :: AllApart(b, a[k])
  {
    var all := a + b;
    forall k | 0 <= k < |a| ensures Inside(d, a[k]) {
      assert Inside(d, all[k]);
    }
    forall k | 0 <= k < |b| ensures Inside(d, b[k]) {
      assert Inside(d, all[|a| + k]);
    }
    forall j, k | 0 <= j < k < |b| ensures Apart(b[j], b[k]) {
      assert Apart(all[|a| + j], all[|a| + k]);
    }
    forall j, k | 0 <= j < |a| && 0 <= k < |b| ensures Apart(a[j], b[k]) && Apart(b[k], a[j]) {
      assert Apart(all[j], all[|a| + k]);
    }
  }

  /** The second part, on a file `d1` in which the section table, the names and the directories are those of `d`. */
  lemma AfterSections(e: Elf, prefix: Bytes, d: Bytes, d1: Bytes) returns (d2: Bytes, fits: bool)
    requires TablesOk(e, d) && |d1| == |d| && AllFree(SectionSlots(e, d), DirSections(e, d))
    requires AllInside(d, SectionSlots(e, d)) && AllApart(SectionSlots(e, d), SectionTable(e))
    requires Held(d1, SectionTable(e)) == Held(d, SectionTable(e))
             && Held(d1, StringTable(e, d)) == Held(d, StringTable(e, d))
    requires AllHeld(d, d1, DirSections(e, d))
    ensures (d2, fits) == RewriteAll(prefix, d1, SectionSlots(e, d))
    ensures ChangedSections(e, prefix, d1) == if fits then WithDirs(e, prefix, d2, DirsIn(e, d)) else (d2, Exited)
  {
    var strtab, table := Held(d, StringTable(e, d)), TableOf(e, d);
    TableKept(e, d, d1);
    SectionsArePlan(e, prefix, strtab, d1, table, 0);
    var r := RewriteAll(prefix, d1, SectionSlots(e, d));
    d2, fits := r.0, r.1;
    if fits {
      DirsArePlan(e, prefix, strtab, d1, table, 0, NO_DIRS);
      NotedSame(strtab, table, d, d1, 0, NO_DIRS);
    }
    ChangedIs(e, prefix, d1, table[e.shstrndx], strtab, d2, fits);
  }

  lemma ChangedIs(e: Elf, prefix: Bytes, d: Bytes, s: Section, strtab: Bytes, d2: Bytes, fits: bool)
    requires SectionAt(e, d, e.shstrndx) == Some(s) && strtab == ReadAt(d, s.offset, s.size)
    requires Sections(e, prefix, strtab, d, 0) == (d2, if fits then Done(true) else Exited)
    ensures ChangedSections(e, prefix, d)
            == if fits then WithDirs(e, prefix, d2, DirsOf(e, prefix, strtab, d, 0, NO_DIRS)) else (d2, Exited)
  {
  }

  /** Writing the loader leaves the tables that the second part reads. */
  lemma TablesStand(dlPath: Bytes, d: Bytes, e: Elf, loader: seq<Slot>, sections: seq<Slot>)
    requires TablesOk(e, d) && AllInside(d, loader + sections) && |loader| <= 1
    requires AllApart(loader + sections, SectionTable(e)) && AllApart(loader + sections, StringTable(e, d))
    ensures var d1 := LoaderWritten(dlPath, d, loader);
            && |d1| == |d| && Held(d1, SectionTable(e)) == Held(d, SectionTable(e))
            && Held(d1, StringTable(e, d)) == Held(d, StringTable(e, d))
    ensures AllInside(d, sections) && AllApart(sections, SectionTable(e))
  {
    SplitSlots(d, loader, sections, SectionTable(e));
    SplitSlots(d, loader, sections, StringTable(e, d));
    LoaderKeeps(dlPath, d, loader, SectionTable(e));
    LoaderKeeps(dlPath, d, loader, StringTable(e, d));
  }

  /** and the library directories. */
  lemma DirsStand(dlPath: Bytes, d: Bytes, loader: seq<Slot>, sections: seq<Slot>, others: seq<Slot>)
    requires AllInside(d, loader + sections) && |loader| <= 1 && AllFree(loader + sections, others)
    ensures AllFree(sections, others) && AllHeld(d, LoaderWritten(dlPath, d, loader), others)
  {
    FreeTail(loader, sections, others, others);
    forall k | 0 <= k < |others| ensures Held(LoaderWritten(dlPath, d, loader), others[k]) == Held(d, others[k]) {
      SplitSlots(d, loader, sections, others[k]);
      LoaderKeeps(dlPath, d, loader, others[k]);
    }
  }

  /** The outcome of one file, once it is known what its parts come to. */
  function Concluded(d: Bytes, fits: bool, loaderFits: bool, d2: Bytes, last: (Bytes, Outcome)): (Bytes, Outcome) {
    if !fits then (d2, Exited)
    else (last.0, if !last.1.Done? then last.1 else if |last.0| != |d| then Exited else Done(loaderFits))
  }

  /**
   On a well-formed file the run is: write the loader path, then rewrite the slots that `d` has, in order, then
   write the library directories that `d` has.
   */
  lemma RunIsPlan(prefix: Bytes, dlPath: Bytes, d: Bytes, e: Elf, loader: seq<Slot>, sections: seq<Slot>)
    requires WellFormed(d) && e == HeaderOf(d) && loader == InterpreterSlots(e, d, 0) && sections == SectionSlots(e, d)
    ensures var (d2, fits) := RewriteAll(prefix, LoaderWritten(dlPath, d, loader), sections);
            Relocated(prefix, dlPath, d) == Concluded(d, fits, LoaderFits(dlPath, loader), d2,
                WithDirs(e, prefix, d2, DirsIn(e, d)))
  {
    var d1 := LoaderWritten(dlPath, d, loader);
    InterpreterIsPlan(e, dlPath, d, 0);
    var d2, fits := SecondPart(prefix, dlPath, d, e, loader, sections);
    RunConcludes(prefix, dlPath, d, e, d1, LoaderFits(dlPath, loader), ChangedSections(e, prefix, d1));
  }

  lemma SecondPart(prefix: Bytes, dlPath: Bytes, d: Bytes, e: Elf, loader: seq<Slot>, sections: seq<Slot>)
      returns (d2: Bytes, fits: bool)
    requires WellFormed(d) && e == HeaderOf(d) && loader == InterpreterSlots(e, d, 0) && sections == SectionSlots(e, d)
    ensures (d2, fits) == RewriteAll(prefix, LoaderWritten(dlPath, d, loader), sections)
    ensures ChangedSections(e, prefix, LoaderWritten(dlPath, d, loader))
            == if fits then WithDirs(e, prefix, d2, DirsIn(e, d)) else (d2, Exited)
  {
    TablesStand(dlPath, d, e, loader, sections);
    DirsStand(dlPath, d, loader, sections, DirSections(e, d));
    d2, fits := AfterSections(e, prefix, d, LoaderWritten(dlPath, d, loader));
  }

  lemma RunConcludes(prefix: Bytes, dlPath: Bytes, d: Bytes, e: Elf, d1: Bytes, ok: bool, second: (Bytes, Outcome))
    requires HasHeader(d) && e == HeaderOf(d) && Interpreter(e, dlPath, d, 0) == (d1, Done(ok))
             && ChangedSections(e, prefix, d1) == second
    ensures Relocated(prefix, dlPath, d)
         == (second.0, if !second.1.Done? then second.1 else if |second.0| != |d| then Exited else Done(ok))
  {
  }

  /** Writing the loader and rewriting the sections, when all slots are apart: the sections, */
  lemma PlanSections(prefix: Bytes, dlPath: Bytes, d: Bytes, loader: seq<Slot>, sections: seq<Slot>)
    requires |loader| <= 1 && AllInside(d, loader + sections) && Disjoint(loader + sections)
    ensures var (d', fits) := RewriteAll(prefix, LoaderWritten(dlPath, d, loader), sections);
            && |d'| == |d| && (fits <==> AllFit(prefix, d, sections))
            && (fits ==> AllRewritten(prefix, d, d', sections))
  {
    SlotsSplit(d, loader, sections);
    var d1 := LoaderWritten(dlPath, d, loader);
    LoaderKeeps(dlPath, d, loader, Slot(|d|, 0));
    forall k | 0 <= k < |sections| ensures Held(d1, sections[k]) == Held(d, sections[k]) {
      LoaderKeeps(dlPath, d, loader, sections[k]);
    }
    LengthKept(prefix, d1, sections);
    RewriteAllExact(prefix, d1, sections);
    SameTexts(prefix, d, d1, sections, RewriteAll(prefix, d1, sections).0);
  }

  /** and the loader. */
  lemma PlanLoader(prefix: Bytes, dlPath: Bytes, d: Bytes, loader: seq<Slot>, sections: seq<Slot>)
    requires |loader| <= 1 && AllInside(d, loader + sections) && Disjoint(loader + sections)
    ensures var d' := RewriteAll(prefix, LoaderWritten(dlPath, d, loader), sections).0;
            if LoaderFits(dlPath, loader) then HoldsLoader(dlPath, d', loader)
                else Held(d', loader[0]) == Held(d, loader[0])
  {
    if loader != [] {
      SlotsSplit(d, loader, sections);
      var d1 := LoaderWritten(dlPath, d, loader);
      LoaderKeeps(dlPath, d, loader, Slot(|d|, 0));
      RewriteAllFrame(prefix, d1, sections, loader[0]);
      if LoaderFits(dlPath, loader) {
        LoaderHeld(dlPath, d, loader);
      }
    }
  }

  lemma PlanKeeps(prefix: Bytes, dlPath: Bytes, d: Bytes, loader: seq<Slot>, sections: seq<Slot>, k: nat)
    requires |loader| <= 1 && AllInside(d, loader + sections) && AllApart(loader + sections, Slot(k, 1)) && k < |d|
    ensures var d' := RewriteAll(prefix, LoaderWritten(dlPath, d, loader), sections).0; |d'| == |d| && d'[k] == d[k]
  {
    SplitSlots(d, loader, sections, Slot(k, 1));
    LoaderKeeps(dlPath, d, loader, Slot(k, 1));
    var d1 := LoaderWritten(dlPath, d, loader);
    RewriteAllFrame(prefix, d1, sections, Slot(k, 1));
    var d2 := RewriteAll(prefix, d1, sections).0;
    assert Held(d2, Slot(k, 1))[0] == d2[k] && Held(d, Slot(k, 1))[0] == d[k];
  }

  /** The directories raise: their lengths have no section, or cannot be packed. */
  predicate DirsRaise(e: Elf, prefix: Bytes, dirs: Dirs) {
    dirs.at.Some? && (dirs.lens.None? || !LengthsFit(e, prefix, Paths(dirs.text)))
  }

  /** The new directories and their lengths fit their sections; the script does not check it. */
  predicate DirsFit(e: Elf, prefix: Bytes, dirs: Dirs) {
    dirs.at.Some? && dirs.lens.Some? ==>
      var paths := Paths(dirs.text);
      |NewDirs(prefix, paths)| <= dirs.at.value.size && |Lengths(e, prefix, paths)| <= dirs.lens.value.size
  }

  /** The sections written at the end. */
  function DirsWritten(dirs: Dirs): (r: seq<Slot>) {
    if dirs.at.Some? && dirs.lens.Some? then [dirs.at.value, dirs.lens.value] else []
  }

  /** The directory section holds the new directories, and the start of the other one their lengths. */
  predicate HoldsDirs(e: Elf, prefix: Bytes, d: Bytes, dirs: Dirs) {
    dirs.at.Some? && dirs.lens.Some? ==>
      var paths := Paths(dirs.text);
      && Held(d, dirs.at.value) == Pad(NewDirs(prefix, paths), dirs.at.value.size)
      && ReadAt(d, dirs.lens.value.off, |Lengths(e, prefix, paths)|) == Lengths(e, prefix, paths)
  }

  /** If they fit, writing them keeps the length and every slot apart from theirs, and leaves what it should. */
  lemma DirsExact(e: Elf, prefix: Bytes, d: Bytes, dirs: Dirs)
    requires AllInside(d, DirsWritten(dirs)) && DirsApart(dirs) && DirsFit(e, prefix, dirs)
    ensures var (d', r) := WithDirs(e, prefix, d, dirs);
            && r == (if DirsRaise(e, prefix, dirs) then Raised else Done(true)) && |d'| == |d|
            && (r.Done? ==> HoldsDirs(e, prefix, d', dirs))
  {
    if dirs.at.Some? && dirs.lens.Some? && !DirsRaise(e, prefix, dirs) {
      var at, lens := dirs.at.value, dirs.lens.value;
      assert DirsWritten(dirs)[0] == at && DirsWritten(dirs)[1] == lens;
      var text, numbers := Pad(NewDirs(prefix, Paths(dirs.text)), at.size), Lengths(e, prefix, Paths(dirs.text));
      var d1 := WriteAt(d, at.off, text);
      var part := Slot(lens.off, |numbers|);
      WriteHeld(d, at, text);
      WriteHeld(d1, part, numbers);
      WriteFrame(d1, part, numbers, at);
    }
  }

  lemma DirsKeep(e: Elf, prefix: Bytes, d: Bytes, dirs: Dirs, t: Slot)
    requires AllInside(d, DirsWritten(dirs)) && DirsFit(e, prefix, dirs) && AllApart(DirsWritten(dirs), t)
    ensures Held(WithDirs(e, prefix, d, dirs).0, t) == Held(d, t)
  {
    if dirs.at.Some? && dirs.lens.Some? && !DirsRaise(e, prefix, dirs) {
      var at, lens := dirs.at.value, dirs.lens.value;
      assert DirsWritten(dirs)[0] == at && DirsWritten(dirs)[1] == lens;
      var text, numbers := Pad(NewDirs(prefix, Paths(dirs.text)), at.size), Lengths(e, prefix, Paths(dirs.text));
      WriteFrame(d, at, text, t);
      WriteFrame(WriteAt(d, at.off, text), Slot(lens.off, |numbers|), numbers, t);
    }
  }

  /** One byte of a file after a write. */
  lemma WriteByte(d: Bytes, pos: nat, b: Bytes, k: nat)
    requires k < |WriteAt(d, pos, b)|
    ensures WriteAt(d, pos, b)[k]
         == if pos <= k < pos + |b| then b[k - pos] else if k < |d| then d[k] else 0
  {
  }

  /** All that a text written at a section takes up, fitting or not. */
  function Extent(s: Slot, b: Bytes): Slot {
    Slot(s.off, if s.size > |b| then s.size else |b|)
  }

  /** Wherever the text runs on over the end of its section and apart from `other`, the file says the same already. */
  predicate Harmless(d: Bytes, s: Slot, b: Bytes, other: Slot) {
    forall k | s.size <= k < |b| && Apart(other, Slot(s.off + k, 1)) :: SaysAlready(d, s.off + k, b[k])
  }

  predicate SaysAlready(d: Bytes, at: nat, x: byte) {
    at < |d| && d[at] == x
  }

  predicate KeptOutside(d: Bytes, d': Bytes, slots: seq<Slot>) {
    |d'| == |d| && forall k | 0 <= k < |d| && AllApart(slots, Slot(k, 1)) :: d'[k] == d[k]
  }

  /**
   Fitting or not, the length and all bytes outside the two sections are kept exactly if what overruns them is what
   the file says there already. What of the directories comes under the lengths, which are written later, and
   what of the lengths comes to lie in the section of the directories does not count.
   */
  lemma DirsKeepExactly(e: Elf, prefix: Bytes, d: Bytes, dirs: Dirs, text: Bytes, numbers: Bytes)
    requires dirs.at.Some? && dirs.lens.Some? && !DirsRaise(e, prefix, dirs) && AllInside(d, DirsWritten(dirs))
    requires text == NewDirs(prefix, Paths(dirs.text)) && numbers == Lengths(e, prefix, Paths(dirs.text))
    ensures KeptOutside(d, WithDirs(e, prefix, d, dirs).0, DirsWritten(dirs)) <==>
            && Harmless(d, dirs.at.value, text, Extent(dirs.lens.value, numbers))
            && Harmless(d, dirs.lens.value, numbers, dirs.at.value)
  {
    var at, lens := dirs.at.value, dirs.lens.value;
    assert DirsWritten(dirs)[0] == at && DirsWritten(dirs)[1] == lens;
    var d1 := WriteAt(d, at.off, Pad(text, at.size));
    var d2 := WriteAt(d1, lens.off, numbers);
    assert WithDirs(e, prefix, d, dirs).0 == d2;
    TwoWrites(d, at, text, lens, numbers, d1, d2);
    if KeptOutside(d, d2, [at, lens]) {
      OverrunAgrees(d, at, text, lens, numbers, d2);
    }
    if Harmless(d, at, text, Extent(lens, numbers)) && Harmless(d, lens, numbers, at) {
      HarmlessKeeps(d, at, text, lens, numbers, d2);
    }
  }

  /** What is written of the directories where the lengths go is what the lengths say there. */
  predicate Agree(at: Slot, text: Bytes, lens: Slot, numbers: Bytes) {
    forall k | 0 <= k < |text| && 0 <= at.off + k - lens.off < |numbers| :: numbers[at.off + k - lens.off] == text[k]
  }

  /** The lengths always read back; the directories exactly if they agree with what was written over them. */
  lemma DirsReadBackExactly(e: Elf, prefix: Bytes, d: Bytes, dirs: Dirs, text: Bytes, numbers: Bytes)
    requires dirs.at.Some? && dirs.lens.Some? && !DirsRaise(e, prefix, dirs) && AllInside(d, DirsWritten(dirs))
    requires text == NewDirs(prefix, Paths(dirs.text)) && numbers == Lengths(e, prefix, Paths(dirs.text))
    ensures var d' := WithDirs(e, prefix, d, dirs).0;
            && ReadAt(d', dirs.lens.value.off, |numbers|) == numbers
            && (ReadAt(d', dirs.at.value.off, |text|) == text
                <==> Agree(dirs.at.value, text, dirs.lens.value, numbers))
  {
    var at, lens := dirs.at.value, dirs.lens.value;
    assert DirsWritten(dirs)[0] == at && DirsWritten(dirs)[1] == lens;
    var d1 := WriteAt(d, at.off, Pad(text, at.size));
    var d2 := WriteAt(d1, lens.off, numbers);
    TwoWrites(d, at, text, lens, numbers, d1, d2);
    var part := ReadAt(d2, lens.off, |numbers|);
    assert part == numbers by {
      assert forall k | 0 <= k < |part| :: part[k] == d2[lens.off + k];
    }
    TextReadsBack(d, at, text, lens, numbers, d2);
  }

  lemma TextReadsBack(d: Bytes, at: Slot, text: Bytes, lens: Slot, numbers: Bytes, d2: Bytes)
    requires Wrote(d, at, text, lens, numbers, d2)
    ensures ReadAt(d2, at.off, |text|) == text <==> Agree(at, text, lens, numbers)
  {
    var back := ReadAt(d2, at.off, |text|);
    forall k | 0 <= k < |text| && 0 <= at.off + k - lens.off < |numbers|
      ensures back[k] == numbers[at.off + k - lens.off]
    {
      assert d2[lens.off + (at.off + k - lens.off)] == numbers[at.off + k - lens.off];
    }
    if Agree(at, text, lens, numbers) {
      assert forall k | 0 <= k < |text| :: back[k] == d2[at.off + k] == text[k];
    }
  }

  /** The bytes of a file after both writes. */
  ghost predicate Wrote(d: Bytes, at: Slot, text: Bytes, lens: Slot, numbers: Bytes, d2: Bytes) {
    && |d2| >= |d| && at.off + |text| <= |d2| && (numbers != [] ==> lens.off + |numbers| <= |d2|)
    && (at.off + |text| <= |d| && lens.off + |numbers| <= |d| ==> |d2| == |d|)
    && (forall k | 0 <= k < |text| && !(0 <= at.off + k - lens.off < |numbers|) :: d2[at.off + k] == text[k])
    && (forall k | 0 <= k < |numbers| :: d2[lens.off + k] == numbers[k])
    && (forall k | 0 <= k < |d| && Apart(Extent(at, text), Slot(k, 1)) && Apart(Extent(lens, numbers), Slot(k, 1)) ::
          d2[k] == d[k])
  }

  lemma TwoWrites(d: Bytes, at: Slot, text: Bytes, lens: Slot, numbers: Bytes, d1: Bytes, d2: Bytes)
    requires Inside(d, at) && Inside(d, lens)
    requires d1 == WriteAt(d, at.off, Pad(text, at.size)) && d2 == WriteAt(d1, lens.off, numbers)
    ensures Wrote(d, at, text, lens, numbers, d2)
  {
    forall k | 0 <= k < |text| && !(0 <= at.off + k - lens.off < |numbers|) ensures d2[at.off + k] == text[k] {
      WriteByte(d, at.off, Pad(text, at.size), at.off + k);
      WriteByte(d1, lens.off, numbers, at.off + k);
    }
    forall k | 0 <= k < |numbers| ensures d2[lens.off + k] == numbers[k] {
      WriteByte(d1, lens.off, numbers, lens.off + k);
    }
    forall k | 0 <= k < |d| && Apart(Extent(at, text), Slot(k, 1)) && Apart(Extent(lens, numbers), Slot(k, 1))
      ensures d2[k] == d[k]
    {
      WriteByte(d, at.off, Pad(text, at.size), k);
      WriteByte(d1, lens.off, numbers, k);
    }
  }

  lemma OverrunAgrees(d: Bytes, at: Slot, text: Bytes, lens: Slot, numbers: Bytes, d2: Bytes)
    requires Wrote(d, at, text, lens, numbers, d2) && KeptOutside(d, d2, [at, lens])
    ensures Harmless(d, at, text, Extent(lens, numbers)) && Harmless(d, lens, numbers, at)
  {
    forall k | at.size <= k < |text| && Apart(Extent(lens, numbers), Slot(at.off + k, 1))
      ensures SaysAlready(d, at.off + k, text[k])
    {
      assert AllApart([at, lens], Slot(at.off + k, 1));
    }
    forall k | lens.size <= k < |numbers| && Apart(at, Slot(lens.off + k, 1))
      ensures SaysAlready(d, lens.off + k, numbers[k])
    {
      assert AllApart([at, lens], Slot(lens.off + k, 1));
    }
  }

  lemma HarmlessKeeps(d: Bytes, at: Slot, text: Bytes, lens: Slot, numbers: Bytes, d2: Bytes)
    requires Inside(d, at) && Inside(d, lens) && Wrote(d, at, text, lens, numbers, d2)
    requires Harmless(d, at, text, Extent(lens, numbers)) && Harmless(d, lens, numbers, at)
    ensures KeptOutside(d, d2, [at, lens])
  {
    HarmlessInside(d, at, text, lens, numbers);
    forall k | 0 <= k < |d| && AllApart([at, lens], Slot(k, 1)) ensures d2[k] == d[k] {
      assert Apart([at, lens][0], Slot(k, 1)) && Apart([at, lens][1], Slot(k, 1));
      if lens.off <= k < lens.off + |numbers| {
        var j := k - lens.off;
        assert SaysAlready(d, lens.off + j, numbers[j]) && d2[lens.off + j] == numbers[j];
      } else if at.off <= k < at.off + |text| {
        var j := k - at.off;
        assert SaysAlready(d, at.off + j, text[j]) && d2[at.off + j] == text[j];
      }
    }
  }

  lemma HarmlessInside(d: Bytes, at: Slot, text: Bytes, lens: Slot, numbers: Bytes)
    requires Inside(d, at) && Inside(d, lens)
    requires Harmless(d, at, text, Extent(lens, numbers)) && Harmless(d, lens, numbers, at)
    ensures at.off + |text| <= |d| && lens.off + |numbers| <= |d|
  {
    if |numbers| > lens.size {
      var k := |numbers| - 1;
      assert !Apart(at, Slot(lens.off + k, 1)) || SaysAlready(d, lens.off + k, numbers[k]);
    }
    if |text| > at.size {
      var k := |text| - 1;
      assert !Apart(Extent(lens, numbers), Slot(at.off + k, 1)) || SaysAlready(d, at.off + k, text[k]);
    }
  }

  /** One path of one character `c`, whose section ends without a NUL and where that of the lengths begins. */
  function Crowded(c: byte): Dirs {
    Dirs(Some(Slot(0, 1)), [c], Some(Slot(1, 8)))
  }

  /**
   The NUL that ends the new path goes over the first length and is lost under it: nothing else of the file changes,
   but the directories do not read back.
   */
  lemma CrowdedDirs(e: Elf, prefix: Bytes, d: Bytes, c: byte)
    requires |d| >= 9 && c != 0
    ensures var dirs := Crowded(c);
            var (d', r) := WithDirs(e, prefix, d, dirs);
            && r == Done(true) && KeptOutside(d, d', DirsWritten(dirs))
            && NewDirs(prefix, Paths(dirs.text)) == [c, 0] && ReadAt(d', 0, 2) == [c, 1]
  {
    CrowdedTexts(e, prefix, c);
    CrowdedWrites(e, prefix, d, Crowded(c), [c, 0], Lengths(e, prefix, Paths(Crowded(c).text)));
  }

  lemma CrowdedWrites(e: Elf, prefix: Bytes, d: Bytes, dirs: Dirs, text: Bytes, numbers: Bytes)
    requires dirs.at == Some(Slot(0, 1)) && dirs.lens == Some(Slot(1, 8)) && LengthsFit(e, prefix, Paths(dirs.text))
    requires text == NewDirs(prefix, Paths(dirs.text)) && numbers == Lengths(e, prefix, Paths(dirs.text))
    requires |d| >= 9 && |text| == 2 && 1 <= |numbers| <= 8
    ensures var (d', r) := WithDirs(e, prefix, d, dirs);
            r == Done(true) && KeptOutside(d, d', DirsWritten(dirs)) && ReadAt(d', 0, 2) == [text[0], numbers[0]]
  {
    var at, lens := dirs.at.value, dirs.lens.value;
    assert DirsWritten(dirs) == [at, lens];
    var d1 := WriteAt(d, at.off, Pad(text, at.size));
    var d' := WithDirs(e, prefix, d, dirs).0;
    DirsKeepExactly(e, prefix, d, dirs, text, numbers);
    TwoWrites(d, at, text, lens, numbers, d1, d');
    assert d'[at.off + 0] == text[0] && d'[lens.off + 0] == numbers[0];
  }

  lemma CrowdedTexts(e: Elf, prefix: Bytes, c: byte)
    requires c != 0
    ensures Paths([c]) == [[c]] && NewDirs(prefix, [[c]]) == [c, 0] && LengthsFit(e, prefix, [[c]])
    ensures var numbers := Lengths(e, prefix, [[c]]); 1 <= |numbers| <= 8 && numbers[0] == 1
  {
    MarkerLength();
    assert FindNul([c], 0) == -1;
    assert SplitNul([c]) == [[c]];
    assert [[c]][1..] == [] && Leading([[c]]) == [[c]] + Leading([]);
    assert Substitute(prefix, [c]) == [c];
    assert [[c]][..0] == [];
    assert NewDirs(prefix, [[c]]) == [] + ([c] + [0]);
    assert Lengths(e, prefix, [[c]]) == [] + Encode(1, LengthSize(e));
  }

  lemma DirsPlaces(d: Bytes, e: Elf)
    requires WellFormed(d) && e == HeaderOf(d)
    ensures var dirs := DirsIn(e, d);
            && AllInside(d, DirsWritten(dirs)) && AllFree(Slots(e, d), DirsWritten(dirs))
            && (dirs.at.Some? ==> dirs.text == Held(d, dirs.at.value))
  {
    StaticPlaces(Held(d, StringTable(e, d)), TableOf(e, d), d, 0, NO_DIRS);
    var dirs, all := DirsIn(e, d), DirSections(e, d);
    forall k | 0 <= k < |DirsWritten(dirs)|
      ensures Inside(d, DirsWritten(dirs)[k]) && AllApart(Slots(e, d), DirsWritten(dirs)[k])
    {
      assert DirsWritten(dirs)[k] in all;
      var j :| 0 <= j < |all| && all[j] == DirsWritten(dirs)[k];
      assert Inside(d, all[j]) && AllApart(Slots(e, d), all[j]);
    }
  }

  lemma ApartFrom(slots: seq<Slot>, others: seq<Slot>, k: nat)
    requires AllFree(slots, others) && k < |slots|
    ensures AllApart(others, slots[k])
  {
    forall j | 0 <= j < |others| ensures Apart(others[j], slots[k]) {
      assert AllApart(slots, others[j]) && Apart(slots[k], others[j]);
    }
  }

  /** The slots rewritten before the directories are written keep what they hold. */
  lemma SlotsStand(e: Elf, prefix: Bytes, d: Bytes, dirs: Dirs, slots: seq<Slot>)
    requires AllInside(d, DirsWritten(dirs)) && DirsFit(e, prefix, dirs) && AllFree(slots, DirsWritten(dirs))
    ensures AllHeld(d, WithDirs(e, prefix, d, dirs).0, slots)
  {
    forall k | 0 <= k < |slots| ensures Held(WithDirs(e, prefix, d, dirs).0, slots[k]) == Held(d, slots[k]) {
      ApartFrom(slots, DirsWritten(dirs), k);
      DirsKeep(e, prefix, d, dirs, slots[k]);
    }
  }

  /**
   On a well-formed file whose new library directories fit: the run exits iff some section text does not fit;
   else it raises iff the directories do; else it reports whether the loader path fits. In every case the length
   and all bytes outside the slots and the directory sections are kept. A run that is through has each section
   slot rewritten from its own old text, the directories and their lengths in their sections, and in the loader
   slot the new path, or, when that did not fit, what it held before.
   */
  lemma RelocationExact(prefix: Bytes, dlPath: Bytes, d: Bytes)
    requires WellFormed(d) && DirsFit(HeaderOf(d), prefix, DirsIn(HeaderOf(d), d))
    ensures var (d', r) := Relocated(prefix, dlPath, d);
            var e := HeaderOf(d);
            var loader, sections, dirs := InterpreterSlots(e, d, 0), SectionSlots(e, d), DirsIn(e, d);
            && r == (if !AllFit(prefix, d, sections) then Exited
                     else if DirsRaise(e, prefix, dirs) then Raised
                     else Done(LoaderFits(dlPath, loader)))
            && |d'| == |d|
            && (forall k | 0 <= k < |d| && AllApart(loader + sections, Slot(k, 1))
            && AllApart(DirsWritten(dirs), Slot(k, 1)) :: d'[k] == d[k])
            && (r.Done? ==> AllRewritten(prefix, d, d', sections) && HoldsDirs(e, prefix, d', dirs))
            && (r == Done(true) ==> HoldsLoader(dlPath, d', loader))
            && (r == Done(false) ==> Held(d', loader[0]) == Held(d, loader[0]))
  {
    var e := HeaderOf(d);
    var loader, sections, dirs := InterpreterSlots(e, d, 0), SectionSlots(e, d), DirsIn(e, d);
    RunIsPlan(prefix, dlPath, d, e, loader, sections);
    PlanSections(prefix, dlPath, d, loader, sections);
    PlanLoader(prefix, dlPath, d, loader, sections);
    DirsPlaces(d, e);
    var d2 := RewriteAll(prefix, LoaderWritten(dlPath, d, loader), sections).0;
    DirsExact(e, prefix, d2, dirs);
    FreeTail(loader, sections, DirsWritten(dirs), DirsWritten(dirs));
    SlotsStand(e, prefix, d2, dirs, sections);
    SlotsStand(e, prefix, d2, dirs, loader);
    StillRewritten(prefix, d, d2, WithDirs(e, prefix, d2, dirs).0, sections);
    forall k | 0 <= k < |d| && AllApart(loader + sections, Slot(k, 1)) && AllApart(DirsWritten(dirs), Slot(k, 1))
      ensures Relocated(prefix, dlPath, d).0[k] == d[k]
    {
      PlanKeeps(prefix, dlPath, d, loader, sections, k);
      DirsKeep(e, prefix, d2, dirs, Slot(k, 1));
      ByteHeld(d2, WithDirs(e, prefix, d2, dirs).0, k);
    }
  }

  lemma ByteHeld(d: Bytes, d1: Bytes, k: nat)
    requires k < |d| == |d1| && Held(d1, Slot(k, 1)) == Held(d, Slot(k, 1))
    ensures d1[k] == d[k]
  {
    assert Held(d1, Slot(k, 1))[0] == d1[k] && Held(d, Slot(k, 1))[0] == d[k];
  }

  lemma StillRewritten(prefix: Bytes, d: Bytes, d2: Bytes, d3: Bytes, slots: seq<Slot>)
    requires AllHeld(d2, d3, slots)
    ensures AllRewritten(prefix, d, d2, slots) ==> AllRewritten(prefix, d, d3, slots)
  {
  }

  lemma LengthKept(prefix: Bytes, d: Bytes, slots: seq<Slot>)
    requires AllInside(d, slots)
    ensures |RewriteAll(prefix, d, slots).0| == |d|
    decreases |slots|
  {
    if slots != [] && Fits(prefix, d, slots[0]) {
      LengthKept(prefix, WriteAt(d, slots[0].off, Pad(NewText(prefix, Held(d, slots[0])), slots[0].size)), slots[1..]);
    }
  }

  /** A rewritten slot ends in NUL, and up to its trailing NULs it is the substituted text. */
  lemma RewrittenText(prefix: Bytes, d: Bytes, d': Bytes, s: Slot)
    requires Inside(d, s) && |d'| == |d| && Fits(prefix, d, s) && Rewritten(prefix, d, d', s)
    ensures d'[s.off + s.size - 1] == 0
    ensures Strip(Held(d', s)) == Strip(Substitute(prefix, Held(d, s)))
  {
    var text := NewText(prefix, Held(d, s));
    assert Held(d', s)[s.size - 1] == d'[s.off + s.size - 1];
    StripPadded(text, s.size - |text|);
  }

  lemma {:induction false} StripPadded(text: Bytes, n: nat)
    requires text == [] || text[|text| - 1] != 0
    ensures Strip(text + Zeros(n)) == text
  {
    if n > 0 {
      var all := text + Zeros(n);
      assert all[..|all| - 1] == text + Zeros(n - 1);
      StripPadded(text, n - 1);
    } else {
      assert text + Zeros(0) == text;
    }
  }
}
