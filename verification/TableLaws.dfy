/** What the dynamic section and the symbol table of a generated image hold, in terms of bytes and numbers
    (System V gABI, chapter 4 "Symbol Table"; chapter 5 "Dynamic Section"). */
module TableLaws {
  import opened Bytes
  import opened Elf
  import opened Dyn
  import opened ElfGen
  import opened ImageReading
  import opened SymbolReading
  import opened PathReading
  import opened Verdicts

  // ---- Dynamic entries ---------------------------------------------------

  function TagIf(present: bool, tag: nat): seq<nat> {
    if present then [tag] else []
  }

  function Tags(es: seq<DynEntry>): seq<nat> {
    seq(|es|, i requires 0 <= i < |es| => es[i].tag)
  }

  lemma TagsConcat(a: seq<DynEntry>, b: seq<DynEntry>)
    ensures Tags(a + b) == Tags(a) + Tags(b)
  {
  }

  lemma TagsIf(present: bool, tag: u64, val: u64)
    ensures Tags(EntryIf(present, tag, val)) == TagIf(present, tag)
  {
  }

  lemma SymbolTags(present: bool, needed: u64, symtab: u64, strtab: u64, strsz: u64)
    ensures Tags(SymEntries(present, needed, symtab, strtab, strsz)) == if present then [1, 6, 5, 10, 11] else []
  {
  }

  lemma PathTags(l: Layout, rpath: u64, runpath: u64)
    ensures Tags(PathEntries(l, rpath, runpath)) == TagIf(SomeEntry(l.rpath), 15) + TagIf(SomeEntry(l.runpath), 29)
  {
    hide Tags, TagIf, EntryIf, JoinedPath;
    PathPresent(l.rpath);
    PathPresent(l.runpath);
    TagsIf(SomeEntry(l.rpath), DT_RPATH, rpath);
    TagsIf(SomeEntry(l.runpath), DT_RUNPATH, runpath);
    TagsConcat(EntryIf(SomeEntry(l.rpath), DT_RPATH, rpath), EntryIf(SomeEntry(l.runpath), DT_RUNPATH, runpath));
  }

  lemma FlagTagList(l: Layout)
    ensures Tags(FlagEntries(l)) ==
            TagIf(l.bindNow, 24) + TagIf(l.textRel, 22) + TagIf(l.flagsBind || l.flagsTextRel, 30) +
            TagIf(l.flags1Pie, 0x6fff_fffb)
  {
    hide Tags, TagIf, EntryIf;
    FlagBits(l);
    var a, b := EntryIf(l.bindNow, DT_BIND_NOW, 0), EntryIf(l.textRel, DT_TEXTREL, 0);
    var c := EntryIf(FlagsValue(l) != 0, DT_FLAGS, FlagsValue(l));
    var d := EntryIf(l.flags1Pie, DT_FLAGS_1, DF_1_PIE);
    TagsIf(l.bindNow, DT_BIND_NOW, 0);
    TagsIf(l.textRel, DT_TEXTREL, 0);
    TagsIf(FlagsValue(l) != 0, DT_FLAGS, FlagsValue(l));
    TagsIf(l.flags1Pie, DT_FLAGS_1, DF_1_PIE);
    TagsConcat(a, b);
    TagsConcat(a + b, c);
    TagsConcat(a + b + c, d);
  }

  /** Which dynamic entries an image has, by number and in order. */
  lemma EntriesMeaning(l: Layout)
    requires Buildable(l)
    ensures Tags(Dynamic(Opened(l), Image(l))) ==
            (if |l.dynSyms| + |l.objectSyms| > 0 then [1, 6, 5, 10, 11] else []) +
            (TagIf(SomeEntry(l.rpath), 15) + TagIf(SomeEntry(l.runpath), 29)) +
            (TagIf(l.bindNow, 24) + TagIf(l.textRel, 22) + TagIf(l.flagsBind || l.flagsTextRel, 30) +
             TagIf(l.flags1Pie, 0x6fff_fffb))
  {
    hide Tags, TagIf, SymEntries, PathEntries, FlagEntries, Dynamic, Opened, Image, Buildable, StrTab, Vaddr,
      SomeEntry;
    DynamicRoundTrip(l);
    var a := SymEntries(HasSyms(l), NeededSlot(l), Vaddr(SymOff(l)), Vaddr(StrOff(l)), U64(|StrTab(l)|));
    var b := PathEntries(l, RpathSlot(l), RunpathSlot(l));
    SymbolTags(HasSyms(l), NeededSlot(l), Vaddr(SymOff(l)), Vaddr(StrOff(l)), U64(|StrTab(l)|));
    PathTags(l, RpathSlot(l), RunpathSlot(l));
    FlagTagList(l);
    TagsConcat(a + b, FlagEntries(l));
    TagsConcat(a, b);
  }

  /** The values of the flag entries: the two marker entries hold zero, DT_FLAGS the bits asked for, DT_FLAGS_1 the
      bit of position-independent executables. */
  lemma FlagValuesMeaning(l: Layout)
    requires Buildable(l)
    ensures var dyns := Dynamic(Opened(l), Image(l));
            && DynTag(dyns, 24) == (if l.bindNow then Some(0) else None)
            && DynTag(dyns, 22) == (if l.textRel then Some(0) else None)
            && DynTag(dyns, 30) == (if l.flagsBind then Some(if l.flagsTextRel then 12 else 8)
                                    else if l.flagsTextRel then Some(4) else None)
            && DynTag(dyns, 0x6fff_fffb) == (if l.flags1Pie then Some(0x800_0000) else None)
  {
    hide DynTag, Dynamic, Opened, Image, Buildable, DynTable, FlagEntries;
    DynamicRoundTrip(l);
    FlagTags(l, 24);
    FlagTags(l, 22);
    FlagTags(l, 30);
    FlagTags(l, 0x6fff_fffb);
    FlagEntryTags(l, 24);
    FlagEntryTags(l, 22);
    FlagEntryTags(l, 30);
    FlagEntryTags(l, 0x6fff_fffb);
  }

  // ---- Symbol records ----------------------------------------------------

  lemma {:induction false} RecordSlice(b: seq<byte>, syms: seq<SymRecord>, k: nat)
    requires b == SymTableBytes(syms) && k < |syms|
    ensures b[SYM_SIZE * k..SYM_SIZE * k + SYM_SIZE] == SymBytes(syms[k])
    decreases k
  {
    hide SymBytes;
    if k > 0 {
      var rest := b[SYM_SIZE..];
      assert rest == SymTableBytes(syms[1..]);
      RecordSlice(rest, syms[1..], k - 1);
      assert rest[SYM_SIZE * (k - 1)..SYM_SIZE * k] == b[SYM_SIZE * k..SYM_SIZE * k + SYM_SIZE];
    }
  }

  lemma {:induction false} SlotInfos(placed: seq<GoString>, added: seq<GoString>, info: byte, k: nat)
    requires k < |added|
    ensures Slots(placed, added, info)[k].info == info
    decreases |added|
  {
    if k < |added| - 1 {
      SlotInfos(placed, added[..|added| - 1], info, k);
    }
  }

  lemma RecordInfo(l: Layout, k: nat)
    requires k < |SymNames(l)|
    ensures Syms(l)[k].info == if k < |l.dynSyms| then 0x12 else 0x11
  {
    hide Slots;
    if k < |l.dynSyms| {
      SlotInfos([], l.dynSyms, FUNC_INFO, k);
    } else {
      SlotInfos(l.dynSyms, l.objectSyms, OBJECT_INFO, k - |l.dynSyms|);
    }
  }

  lemma RecordFields(s: SymRecord)
    ensures SymBytes(s)[4] == s.info && SymBytes(s)[5..] == Zeros(19)
  {
  }

  /** The table that DT_SYMTAB points at holds one record per name, function names first: the fifth byte says global
      function or global object, and everything behind it is zero. */
  lemma RecordsMeaning(l: Layout, k: nat)
    requires Buildable(l) && k < |l.dynSyms| + |l.objectSyms|
    ensures var symtab := DynTag(Dynamic(Opened(l), Image(l)), 6);
            && symtab.Some? && VaddrToFileOffset(Progs(l), symtab.value).Some?
            && var at := VaddrToFileOffset(Progs(l), symtab.value).value + 24 * k;
               && 0 <= at && at + 24 <= |Image(l)|
               && Image(l)[at + 4] == (if k < |l.dynSyms| then 0x12 else 0x11)
               && Image(l)[at + 5..at + 24] == Zeros(19)
  {
    hide Image, Progs, StrTab, StrOff, SymOff, Total, Holds, DynTag, VaddrToFileOffset, Dynamic, Syms, SymBytes,
      SymTableBytes, Opened, DynTable, Buildable;
    DynamicRoundTrip(l);
    SymTagValues(l);
    ImageHolds(l);
    SymBeforeStr(l);
    RecordPlace(l, Image(l));
    AddressRoundTrip(l, SymOff(l));
    var at, b := SymOff(l) + 24 * k, SymTableBytes(Syms(l));
    RecordSlice(b, Syms(l), k);
    RecordInfo(l, k);
    RecordFields(Syms(l)[k]);
    SubSlice(Image(l), SymOff(l), 24 * |SymNames(l)|, 24 * k, 24 * k + 24);
    assert Image(l)[at..at + 24][5..] == Image(l)[at + 5..at + 24];
  }

  lemma RecordPlace(l: Layout, raw: seq<byte>)
    requires Holds(raw, l)
    ensures SymOff(l) + 24 * |SymNames(l)| <= |raw| == Total(l) && |SymNames(l)| == |l.dynSyms| + |l.objectSyms|
    ensures raw[SymOff(l)..SymOff(l) + 24 * |SymNames(l)|] == SymTableBytes(Syms(l))
  {
    hide DynBytes, Progs, StrTab, InterpBytes, Pad8, EhdrBytes, PhdrsBytes, SymTableBytes, Syms, DynOff, HeaderLen,
      Total;
  }

  /** The needed library is the C library's shared object, by name. */
  lemma NeededMeaning(l: Layout)
    requires Buildable(l)
    ensures DynStringsPH(Opened(l), Image(l), 1) ==
            if 0 < |l.dynSyms| + |l.objectSyms| && |StrTab(l)| <= 0x100_0000 then ["libc.so.6"] else []
  {
    hide Opened, Image, DynStringsPH, StrTab, Buildable;
    StringRoundTrip(l, 1);
  }

  /** A layout that asks for it ends its string table with the instruction, as four bytes. */
  lemma InstructionMeaning(l: Layout)
    ensures l.pacIBSP ==> |StrTab(l)| >= 4 && StrTab(l)[|StrTab(l)| - 4..] == [0x7f, 0x23, 0x03, 0xd5]
  {
    hide Packed;
  }
}
