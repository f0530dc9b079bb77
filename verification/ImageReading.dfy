/** Reading a generated image back: headers, dynamic entries, addresses, strings and symbols. */
module ImageReading {
  import opened Bytes
  import opened Elf
  import opened Dyn
  import opened DynProperties
  import opened ElfGen

  // ---- Headers -----------------------------------------------------------

  /** Images a file reader can address; no slice in memory is longer. */
  predicate Buildable(l: Layout) {
    BASE_VADDR + Total(l) < TWO_TO_63
  }

  /** A few symbols and a short string table: far below the bound. */
  lemma SmallLayout(l: Layout)
    requires |SymNames(l)| <= 3 && |StrTab(l)| <= 400
    ensures Buildable(l)
  {
    hide StrTab, SymNames;
    InterpShort(l);
    assert DynCount(l) <= 12 by {
      assert |Template(l)| <= 11;
    }
  }

  lemma InterpShort(l: Layout)
    ensures |InterpBytes(l)| <= 28
  {
  }

  /** What opening the image must give. */
  function Opened(l: Layout): ElfFile {
    ElfFile(Elf64, LittleEndian, FileType(l), Machine(l), Progs(l), NO_SECTIONS)
  }

  lemma WordInSlice(raw: seq<byte>, off: nat, width: nat, v: nat)
    requires off + width <= |raw| && v < Pow256(width)
    requires raw[off..off + width] == Le(width, v)
    ensures Word(raw, off, width) == v
  {
    LeRoundTrip(width, v);
  }

  lemma PhdrFields(p: Prog)
    ensures var b := PhdrBytes(p);
            && b[0..4] == Le(4, p.typ) && b[4..8] == Le(4, p.flags) && b[8..16] == Le(8, p.off)
            && b[16..24] == Le(8, p.vaddr) && b[24..32] == Le(8, p.vaddr) && b[32..40] == Le(8, p.filesz)
            && b[40..48] == Le(8, p.memsz) && b[48..] == Le(8, 0x1000)
  {
  }

  lemma PhdrRoundTrip(raw: seq<byte>, at: nat, p: Prog)
    requires at + PHDR_SIZE <= |raw|
    requires raw[at..at + PHDR_SIZE] == PhdrBytes(p)
    ensures ReadProg(raw, at) == p
  {
    PhdrFields(p);
    Pow256Values();
    hide Word, Le, Pow256, PhdrBytes;
    var b := raw[at..at + PHDR_SIZE];
    SubSlice(raw, at, PHDR_SIZE, 0, 4);
    WordInSlice(raw, at, 4, p.typ);
    SubSlice(raw, at, PHDR_SIZE, 4, 8);
    WordInSlice(raw, at + 4, 4, p.flags);
    SubSlice(raw, at, PHDR_SIZE, 8, 16);
    WordInSlice(raw, at + 8, 8, p.off);
    SubSlice(raw, at, PHDR_SIZE, 16, 24);
    WordInSlice(raw, at + 16, 8, p.vaddr);
    SubSlice(raw, at, PHDR_SIZE, 32, 40);
    WordInSlice(raw, at + 32, 8, p.filesz);
    SubSlice(raw, at, PHDR_SIZE, 40, 48);
    WordInSlice(raw, at + 40, 8, p.memsz);
  }

  lemma SubSlice(raw: seq<byte>, at: nat, len: nat, lo: nat, hi: nat)
    requires at + len <= |raw| && lo <= hi <= len
    ensures raw[at..at + len][lo..hi] == raw[at + lo..at + hi]
  {
    var s := raw[at..at + len];
    assert forall k :: lo <= k < hi ==> s[k] == raw[at + k];
  }

  lemma {:induction false} PhdrsRoundTrip(raw: seq<byte>, at: nat, ps: seq<Prog>)
    requires at + PHDR_SIZE * |ps| <= |raw|
    requires raw[at..at + PHDR_SIZE * |ps|] == PhdrsBytes(ps)
    ensures ReadProgs(raw, at, |ps|) == ps
    decreases |ps|
  {
    if ps != [] {
      var all := raw[at..at + PHDR_SIZE * |ps|];
      assert all[..PHDR_SIZE] == PhdrBytes(ps[0]);
      assert all[PHDR_SIZE..] == PhdrsBytes(ps[1..]);
      assert raw[at..at + PHDR_SIZE] == all[..PHDR_SIZE];
      assert raw[at + PHDR_SIZE..at + PHDR_SIZE * |ps|] == all[PHDR_SIZE..];
      PhdrRoundTrip(raw, at, ps[0]);
      PhdrsRoundTrip(raw, at + PHDR_SIZE, ps[1..]);
    }
  }

  lemma EhdrFields(typ: seq<byte>, machine: seq<byte>, version: seq<byte>, entry: seq<byte>, phoff: seq<byte>,
                   shoff: seq<byte>, flags: seq<byte>, ehsize: seq<byte>, phentsize: seq<byte>, phnum: seq<byte>,
                   shentsize: seq<byte>, shnum: seq<byte>, shstrndx: seq<byte>, b: seq<byte>)
    requires |typ| == 2 && |machine| == 2 && |version| == 4 && |entry| == 8 && |phoff| == 8 && |shoff| == 8
    requires |flags| == 4 && |ehsize| == 2 && |phentsize| == 2 && |phnum| == 2 && |shentsize| == 2 && |shnum| == 2
    requires b == IDENT + typ + machine + version + entry + phoff + shoff + flags + ehsize + phentsize + phnum +
                  shentsize + shnum + shstrndx
    ensures |b| == 62 + |shstrndx| && b[..16] == IDENT
    ensures b[16..18] == typ && b[18..20] == machine && b[32..40] == phoff && b[40..48] == shoff
    ensures b[54..56] == phentsize && b[56..58] == phnum && b[60..62] == shnum
    ensures b[20..24] == version && b[24..32] == entry && b[48..52] == flags && b[52..54] == ehsize
    ensures b[58..60] == shentsize && b[62..] == shstrndx
  {
  }

  lemma EhdrSlices(l: Layout)
    ensures var b := EhdrBytes(l);
            && b[..16] == IDENT && b[16..18] == Le(2, FileType(l)) && b[18..20] == Le(2, Machine(l))
            && b[20..24] == Le(4, 1) && b[24..32] == Le(8, BASE_VADDR) && b[32..40] == Le(8, EHDR_SIZE)
            && b[40..48] == Le(8, 0) && b[48..52] == Le(4, 64) && b[52..54] == Le(2, EHDR_SIZE)
            && b[54..56] == Le(2, PHDR_SIZE) && b[56..58] == Le(2, PhdrCount(l)) && b[58..60] == Le(2, 0)
            && b[60..62] == Le(2, 0) && b[62..] == Le(2, 0)
  {
    hide Le, PhdrCount;
    EhdrFields(Le(2, FileType(l)), Le(2, Machine(l)), Le(4, 1), Le(8, BASE_VADDR), Le(8, EHDR_SIZE), Le(8, 0),
               Le(4, 64), Le(2, 64), Le(2, PHDR_SIZE), Le(2, PhdrCount(l)), Le(2, 0), Le(2, 0), Le(2, 0), EhdrBytes(l));
  }

  lemma EhdrWords(l: Layout, raw: seq<byte>)
    requires |raw| >= EHDR_SIZE && raw[..EHDR_SIZE] == EhdrBytes(l)
    ensures raw[..16] == IDENT && raw[..4] == [0x7f, 0x45, 0x4c, 0x46] && raw[4..7] == [2, 1, 1]
    ensures Word(raw, 16, 2) == FileType(l) && Word(raw, 18, 2) == Machine(l) && Word(raw, 20, 4) == 1
    ensures Word(raw, 24, 8) == BASE_VADDR && Word(raw, 32, 8) == EHDR_SIZE && Word(raw, 40, 8) == 0
    ensures Word(raw, 48, 4) == 64 && Word(raw, 52, 2) == EHDR_SIZE && Word(raw, 54, 2) == PHDR_SIZE
    ensures Word(raw, 56, 2) == PhdrCount(l) && Word(raw, 58, 2) == 0 && Word(raw, 60, 2) == 0
    ensures Word(raw, 62, 2) == 0
  {
    hide Word, Le, Pow256, EhdrBytes;
    EhdrSlices(l);
    Pow256Values();
    var b := EhdrBytes(l);
    IdentBytes(raw, b);
    HeaderWord(raw, b, 16, 2, FileType(l));
    HeaderWord(raw, b, 18, 2, Machine(l));
    HeaderWord(raw, b, 20, 4, 1);
    HeaderWord(raw, b, 24, 8, BASE_VADDR);
    HeaderWord(raw, b, 32, 8, EHDR_SIZE);
    HeaderWord(raw, b, 40, 8, 0);
    HeaderWord(raw, b, 48, 4, 64);
    HeaderWord(raw, b, 52, 2, EHDR_SIZE);
    HeaderWord(raw, b, 54, 2, PHDR_SIZE);
    HeaderWord(raw, b, 56, 2, PhdrCount(l));
    HeaderWord(raw, b, 58, 2, 0);
    HeaderWord(raw, b, 60, 2, 0);
    assert b[62..] == b[62..64];
    HeaderWord(raw, b, 62, 2, 0);
  }

  lemma IdentBytes(raw: seq<byte>, b: seq<byte>)
    requires |b| == EHDR_SIZE <= |raw| && raw[..EHDR_SIZE] == b && b[..16] == IDENT
    ensures raw[..16] == IDENT && raw[..4] == [0x7f, 0x45, 0x4c, 0x46] && raw[4..7] == [2, 1, 1]
  {
    assert raw[..16] == IDENT;
    assert raw[..4] == IDENT[..4] && raw[4..7] == IDENT[4..7];
  }

  lemma HeaderWord(raw: seq<byte>, b: seq<byte>, off: nat, width: nat, v: nat)
    requires |b| == EHDR_SIZE <= |raw| && raw[..EHDR_SIZE] == b
    requires off + width <= EHDR_SIZE && v < Pow256(width) && b[off..off + width] == Le(width, v)
    ensures Word(raw, off, width) == v
  {
    assert raw[off..off + width] == b[off..off + width];
    WordInSlice(raw, off, width, v);
  }

  lemma SegmentAddressable(present: bool, typ: u32, flags: u32, off: nat, vaddr: u64, size: nat)
    requires off < TWO_TO_63 && size < TWO_TO_63
    ensures Segment(typ, flags, off, vaddr, size) == Prog(typ, flags, off, vaddr, size, size)
    ensures Addressable(ProgIf(present, Segment(typ, flags, off, vaddr, size)))
  {
  }

  lemma AddressableConcat(a: seq<Prog>, b: seq<Prog>)
    requires Addressable(a) && Addressable(b)
    ensures Addressable(a + b)
  {
  }

  lemma ProgListAddressable(l: Layout, interpOff: nat, interpLen: nat, dynOff: nat, dynLen: nat, total: nat)
    requires interpOff + interpLen <= total && dynOff + dynLen <= total < TWO_TO_63
    ensures Addressable(ProgList(l, interpOff, interpLen, dynOff, dynLen, total))
    ensures ProgList(l, interpOff, interpLen, dynOff, dynLen, total)[0] ==
            Prog(PT_LOAD, PF_R + PF_X, 0, BASE_VADDR, total, total)
  {
    var load := Segment(PT_LOAD, PF_R + PF_X, 0, BASE_VADDR, total);
    var interp := Segment(PT_INTERP, PF_R, interpOff, Vaddr(interpOff), interpLen);
    var dyn := Segment(PT_DYNAMIC, PF_R + PF_W, dynOff, Vaddr(dynOff), dynLen);
    SegmentAddressable(true, PT_LOAD, PF_R + PF_X, 0, BASE_VADDR, total);
    SegmentAddressable(interpLen > 0, PT_INTERP, PF_R, interpOff, Vaddr(interpOff), interpLen);
    SegmentAddressable(dynLen > 0, PT_DYNAMIC, PF_R + PF_W, dynOff, Vaddr(dynOff), dynLen);
    MarkersAddressable(l, total);
    AddressableConcat(ProgIf(true, load), ProgIf(interpLen > 0, interp));
    AddressableConcat(ProgIf(true, load) + ProgIf(interpLen > 0, interp), ProgIf(dynLen > 0, dyn));
    AddressableConcat(ProgIf(true, load) + ProgIf(interpLen > 0, interp) + ProgIf(dynLen > 0, dyn),
                      MarkerList(l, total));
  }

  lemma MarkersAddressable(l: Layout, total: nat)
    requires total < TWO_TO_63
    ensures Addressable(MarkerList(l, total))
  {
    SegmentAddressable(l.relro, PT_GNU_RELRO, PF_R, 0, BASE_VADDR, total);
    SegmentAddressable(l.retguard, PT_OHOS_RETGUARD, PF_R, 0, BASE_VADDR, 0);
    SegmentAddressable(!l.noStack, PT_GNU_STACK, StackFlags(l), 0, 0, 0);
  }

  lemma ProgsAddressable(l: Layout)
    requires Buildable(l)
    ensures Addressable(Progs(l))
    ensures Progs(l)[0] == Prog(PT_LOAD, PF_R + PF_X, 0, BASE_VADDR, Total(l), Total(l))
  {
    LayoutSound(l);
    DynBytesLength(l);
    ProgListAddressable(l, HeaderLen(l), |InterpBytes(l)|, DynOff(l), 16 * DynCount(l), Total(l));
  }

  lemma NewFileFrom(raw: seq<byte>, typ: u16, machine: u16, ps: seq<Prog>)
    requires |raw| >= EHDR_SIZE + PHDR_SIZE * |ps|
    requires raw[..4] == [0x7f, 0x45, 0x4c, 0x46] && raw[4..7] == [2, 1, 1]
    requires Word(raw, 16, 2) == typ && Word(raw, 18, 2) == machine
    requires Word(raw, 32, 8) == EHDR_SIZE && Word(raw, 40, 8) == 0
    requires Word(raw, 54, 2) == PHDR_SIZE && Word(raw, 56, 2) == |ps| && Word(raw, 60, 2) == 0
    requires ReadProgs(raw, EHDR_SIZE, |ps|) == ps && Addressable(ps)
    ensures NewFile(raw) == Some(ElfFile(Elf64, LittleEndian, typ, machine, ps, NO_SECTIONS))
  {
  }

  lemma HeaderSlices(l: Layout, raw: seq<byte>)
    requires Holds(raw, l)
    ensures EHDR_SIZE + PHDR_SIZE * |Progs(l)| <= |raw| && |Progs(l)| == PhdrCount(l)
    ensures raw[..EHDR_SIZE] == EhdrBytes(l)
    ensures raw[EHDR_SIZE..EHDR_SIZE + PHDR_SIZE * |Progs(l)|] == PhdrsBytes(Progs(l))
  {
    hide EhdrBytes, PhdrsBytes, DynBytes, SymTableBytes, StrTab, Syms, InterpBytes, Pad8;
  }

  lemma HeadersRead(l: Layout, raw: seq<byte>)
    requires Buildable(l) && Holds(raw, l)
    ensures NewFile(raw) == Some(Opened(l))
  {
    hide NewFile, Word, ReadProgs, PhdrsBytes, EhdrBytes, Addressable, Progs, Le, DynBytes, SymTableBytes, StrTab,
      Syms;
    HeaderSlices(l, raw);
    hide Holds, Buildable;
    EhdrWords(l, raw);
    ProgsAddressable(l);
    PhdrsRoundTrip(raw, EHDR_SIZE, Progs(l));
    NewFileFrom(raw, FileType(l), Machine(l), Progs(l));
  }

  /** Opening the image gives back the type, the machine and every segment the layout asked for. */
  lemma HeaderRoundTrip(l: Layout)
    requires Buildable(l)
    ensures NewFile(Image(l)) == Some(Opened(l))
  {
    ImageHolds(l);
    HeadersRead(l, Image(l));
  }

  // ---- Dynamic entries ---------------------------------------------------

  lemma {:induction false} PtDynamicConcat(a: seq<Prog>, b: seq<Prog>, cls: Class, order: ByteOrder, raw: seq<byte>)
    ensures PtDynamic(a + b, cls, order, raw) == PtDynamic(a, cls, order, raw) + PtDynamic(b, cls, order, raw)
  {
    if a == [] {
      assert a + b == b;
    } else {
      assert (a + b)[1..] == a[1..] + b;
      PtDynamicConcat(a[1..], b, cls, order, raw);
    }
  }

  lemma {:induction false} PtDynamicNone(ps: seq<Prog>, cls: Class, order: ByteOrder, raw: seq<byte>)
    requires forall i :: 0 <= i < |ps| ==> ps[i].typ != PT_DYNAMIC
    ensures PtDynamic(ps, cls, order, raw) == []
  {
    if ps != [] {
      PtDynamicNone(ps[1..], cls, order, raw);
    }
  }

  lemma EntryStorable(present: bool, tag: u64, val: u64)
    requires tag != DT_NULL
    ensures Storable(EntryIf(present, tag, val), Elf64)
  {
    Pow256Values();
  }

  lemma SymEntriesStorable(present: bool, needed: u64, symtab: u64, strtab: u64, strsz: u64)
    ensures Storable(SymEntries(present, needed, symtab, strtab, strsz), Elf64)
  {
    Pow256Values();
  }

  lemma StorableConcat(a: seq<DynEntry>, b: seq<DynEntry>)
    requires Storable(a, Elf64) && Storable(b, Elf64)
    ensures Storable(a + b, Elf64)
  {
  }

  lemma PathsStorable(l: Layout, rpath: u64, runpath: u64)
    ensures Storable(PathEntries(l, rpath, runpath), Elf64)
  {
    EntryStorable(JoinedPath(l.rpath) != "", DT_RPATH, rpath);
    EntryStorable(JoinedPath(l.runpath) != "", DT_RUNPATH, runpath);
    StorableConcat(EntryIf(JoinedPath(l.rpath) != "", DT_RPATH, rpath),
                   EntryIf(JoinedPath(l.runpath) != "", DT_RUNPATH, runpath));
  }

  lemma FlagsStorable(l: Layout)
    ensures Storable(FlagEntries(l), Elf64)
  {
    var a, b := EntryIf(l.bindNow, DT_BIND_NOW, 0), EntryIf(l.textRel, DT_TEXTREL, 0);
    var c, d := EntryIf(FlagsValue(l) != 0, DT_FLAGS, FlagsValue(l)), EntryIf(l.flags1Pie, DT_FLAGS_1, DF_1_PIE);
    EntryStorable(l.bindNow, DT_BIND_NOW, 0);
    EntryStorable(l.textRel, DT_TEXTREL, 0);
    EntryStorable(FlagsValue(l) != 0, DT_FLAGS, FlagsValue(l));
    EntryStorable(l.flags1Pie, DT_FLAGS_1, DF_1_PIE);
    StorableConcat(a, b);
    StorableConcat(a + b, c);
    StorableConcat(a + b + c, d);
  }

  lemma TableStorable(l: Layout)
    ensures Storable(DynTable(l), Elf64)
  {
    var a := SymEntries(HasSyms(l), NeededSlot(l), Vaddr(SymOff(l)), Vaddr(StrOff(l)), U64(|StrTab(l)|));
    var b := PathEntries(l, RpathSlot(l), RunpathSlot(l));
    SymEntriesStorable(HasSyms(l), NeededSlot(l), Vaddr(SymOff(l)), Vaddr(StrOff(l)), U64(|StrTab(l)|));
    PathsStorable(l, RpathSlot(l), RunpathSlot(l));
    FlagsStorable(l);
    StorableConcat(a, b);
    StorableConcat(a + b, FlagEntries(l));
  }

  lemma DynBytesRoundTrip(l: Layout)
    requires HasDyn(l)
    ensures DynEntries(DynBytes(l), Elf64, LittleEndian) == DynTable(l)
  {
    TableStorable(l);
    Pow256Values();
    EntriesAppend(DynTable(l), NULL_ENTRY, Elf64, LittleEndian);
    EntriesRoundTrip(DynTable(l), NULL_ENTRY, [], Elf64, LittleEndian);
    var b := EntriesBytes(DynTable(l), Elf64, LittleEndian) + EntryBytes(NULL_ENTRY, Elf64, LittleEndian);
    assert b + [] == b;
  }

  lemma SegmentReads(raw: seq<byte>, off: nat, size: nat, data: seq<byte>, flags: u32, vaddr: u64)
    requires 0 < size && off + size <= |raw| < TWO_TO_63 && raw[off..off + size] == data
    ensures ReadSegment(raw, Segment(PT_DYNAMIC, flags, off, vaddr, size)) == Read(data, Full)
  {
  }

  /** What the PT_DYNAMIC segment yields in any file that holds `data` at its place. */
  lemma DynSegmentYields(raw: seq<byte>, off: nat, size: nat, data: seq<byte>)
    requires 0 < size && off + size <= |raw| < TWO_TO_63 && raw[off..off + size] == data
    ensures PtDynamic([Segment(PT_DYNAMIC, PF_R + PF_W, off, Vaddr(off), size)], Elf64, LittleEndian, raw) ==
            DynEntries(data, Elf64, LittleEndian)
  {
    SegmentReads(raw, off, size, data, PF_R + PF_W, Vaddr(off));
    PtDynamicOne(Segment(PT_DYNAMIC, PF_R + PF_W, off, Vaddr(off), size), raw, data);
  }

  lemma BuildableTotal(l: Layout)
    requires Buildable(l)
    ensures Total(l) < TWO_TO_63
  {
  }

  lemma DynInImage(l: Layout, raw: seq<byte>)
    requires Holds(raw, l)
    ensures |DynBytes(l)| == 16 * DynCount(l) && DynOff(l) + 16 * DynCount(l) <= |raw| == Total(l)
    ensures raw[DynOff(l)..DynOff(l) + 16 * DynCount(l)] == DynBytes(l)
  {
    hide DynBytes, Progs, StrTab, Syms, InterpBytes, Pad8;
    DynBytesLength(l);
  }

  lemma DynamicSegment(l: Layout, raw: seq<byte>)
    ensures Dynamic(Opened(l), raw) ==
            var dyn := Segment(PT_DYNAMIC, PF_R + PF_W, DynOff(l), Vaddr(DynOff(l)), 16 * DynCount(l));
            PtDynamic(ProgIf(DynCount(l) > 0, dyn), Elf64, LittleEndian, raw)
  {
    hide PtDynamic, ProgList, DynOff, DynCount, Total, HeaderLen, InterpBytes;
    OnlyDynSegment(l, raw, HeaderLen(l), |InterpBytes(l)|, DynOff(l), 16 * DynCount(l), Total(l));
  }

  lemma DynPresence(l: Layout)
    ensures DynCount(l) > 0 <==> HasDyn(l)
  {
  }

  lemma DynamicRead(l: Layout, raw: seq<byte>)
    requires Buildable(l) && Holds(raw, l)
    ensures Dynamic(Opened(l), raw) == DynTable(l)
  {
    hide SlicesOf, Dynamic, Opened, PtDynamic, DynBytes, DynEntries, DynTable, DynOff, DynCount, Total, HasDyn,
      EhdrBytes, PhdrsBytes, Progs, InterpBytes, SymTableBytes, Syms, StrTab, HeaderLen, SymOff, StrOff, Segment,
      Vaddr;
    BuildableTotal(l);
    DynInImage(l, raw);
    DynamicSegment(l, raw);
    DynPresence(l);
    if HasDyn(l) {
      DynBytesRoundTrip(l);
      DynSegmentYields(raw, DynOff(l), 16 * DynCount(l), DynBytes(l));
    } else {
      NoEntries(l);
      NoSegments(raw);
    }
  }

  lemma NoSegments(raw: seq<byte>)
    ensures PtDynamic([], Elf64, LittleEndian, raw) == []
  {
  }

  /** The dynamic entries come back exactly as the layout asks for them. */
  lemma DynamicRoundTrip(l: Layout)
    requires Buildable(l)
    ensures Dynamic(Opened(l), Image(l)) == DynTable(l)
  {
    ImageHolds(l);
    DynamicRead(l, Image(l));
  }

  lemma NoEntries(l: Layout)
    requires !HasDyn(l)
    ensures DynTable(l) == []
  {
    TemplateMatchesTable(l);
  }

  /** Only the PT_DYNAMIC segment contributes. */
  lemma OnlyDynSegment(l: Layout, raw: seq<byte>, interpOff: nat, interpLen: nat, dynOff: nat, dynLen: nat, total: nat)
    ensures PtDynamic(ProgList(l, interpOff, interpLen, dynOff, dynLen, total), Elf64, LittleEndian, raw) ==
            PtDynamic(ProgIf(dynLen > 0, Segment(PT_DYNAMIC, PF_R + PF_W, dynOff, Vaddr(dynOff), dynLen)),
                      Elf64, LittleEndian, raw)
  {
    var dyn := ProgIf(dynLen > 0, Segment(PT_DYNAMIC, PF_R + PF_W, dynOff, Vaddr(dynOff), dynLen));
    var a := [Segment(PT_LOAD, PF_R + PF_X, 0, BASE_VADDR, total)] +
             ProgIf(interpLen > 0, Segment(PT_INTERP, PF_R, interpOff, Vaddr(interpOff), interpLen));
    var c := MarkerList(l, total);
    assert ProgList(l, interpOff, interpLen, dynOff, dynLen, total) == a + dyn + c;
    MarkersNotDynamic(l, total);
    hide ProgList, MarkerList, PtDynamic, Vaddr;
    PtDynamicConcat(a + dyn, c, Elf64, LittleEndian, raw);
    PtDynamicConcat(a, dyn, Elf64, LittleEndian, raw);
    PtDynamicNone(a, Elf64, LittleEndian, raw);
    PtDynamicNone(c, Elf64, LittleEndian, raw);
  }

  lemma MarkersNotDynamic(l: Layout, total: nat)
    ensures forall i :: 0 <= i < |MarkerList(l, total)| ==> MarkerList(l, total)[i].typ != PT_DYNAMIC
  {
    hide StackFlags;
  }

  lemma PtDynamicOne(p: Prog, raw: seq<byte>, data: seq<byte>)
    requires p.typ == PT_DYNAMIC && ReadSegment(raw, p) == Read(data, Full)
    ensures PtDynamic([p], Elf64, LittleEndian, raw) == DynEntries(data, Elf64, LittleEndian)
  {
    assert PtDynamic([p][1..], Elf64, LittleEndian, raw) == [];
  }

  // ---- Addresses ---------------------------------------------------------

  lemma LoadCovers(progs: seq<Prog>, total: nat, off: nat)
    requires |progs| > 0 && off < total && BASE_VADDR + total < TWO_TO_63
    requires progs[0] == Prog(PT_LOAD, PF_R + PF_X, 0, BASE_VADDR, total, total)
    ensures Vaddr(off) == BASE_VADDR + off
    ensures CoveringLoad(progs, Vaddr(off)) == Some(progs[0])
    ensures VaddrToFileOffset(progs, Vaddr(off)) == Some(off)
  {
    CoversExactly(progs[0], Vaddr(off));
  }

  /** Address translation inverts the generator's address assignment on the whole image. */
  lemma AddressRoundTrip(l: Layout, off: nat)
    requires Buildable(l) && off < Total(l)
    ensures CoveringLoad(Progs(l), Vaddr(off)) == Some(Progs(l)[0])
    ensures VaddrToFileOffset(Progs(l), Vaddr(off)) == Some(off)
  {
    ProgsAddressable(l);
    LoadCovers(Progs(l), Total(l), off);
  }

  /** Only the first header is loadable. */
  lemma OtherNotLoad(l: Layout, interpOff: nat, interpLen: nat, dynOff: nat, dynLen: nat, total: nat)
    ensures var progs := ProgList(l, interpOff, interpLen, dynOff, dynLen, total);
            forall i :: 1 <= i < |progs| ==> progs[i].typ != PT_LOAD
  {
  }

  /** Distinct addresses translate to distinct offsets in every image, whatever other segments it has. */
  lemma AddressesInjective(l: Layout, v: u64, w: u64)
    requires Buildable(l)
    requires VaddrToFileOffset(Progs(l), v).Some?
    requires VaddrToFileOffset(Progs(l), v) == VaddrToFileOffset(Progs(l), w)
    ensures v == w
  {
    hide ProgList, VaddrToFileOffset;
    ProgsAddressable(l);
    OtherNotLoad(l, HeaderLen(l), |InterpBytes(l)|, DynOff(l), 16 * DynCount(l), Total(l));
    OneLoad(Progs(l));
    OffsetInjective(Progs(l), v, w);
  }

  lemma OneLoad(progs: seq<Prog>)
    requires |progs| > 0 && InFileRange(progs[0])
    requires forall i :: 1 <= i < |progs| ==> progs[i].typ != PT_LOAD
    ensures LoadsDisjoint(progs)
  {
  }
}
