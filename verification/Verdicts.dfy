/** Every verdict on a generated image is what the fields of its layout say. */
module Verdicts {
  import opened Bytes
  import opened Results
  import opened Elf
  import opened Dyn
  import opened DynProperties
  import opened ElfGen
  import opened ImageReading
  import opened SymbolReading
  import opened SymbolRoundTrip
  import opened PathReading
  import opened Detectors
  import Rpath
  import Fortify

  // ---- Segments ----------------------------------------------------------

  lemma SegmentConcat(a: seq<Prog>, b: seq<Prog>, typ: u32)
    ensures HasSegment(a + b, typ) <==> HasSegment(a, typ) || HasSegment(b, typ)
  {
    if i :| 0 <= i < |a| && a[i].typ == typ {
      assert (a + b)[i].typ == typ;
    }
    if i :| 0 <= i < |b| && b[i].typ == typ {
      assert (a + b)[|a| + i].typ == typ;
    }
    if i :| 0 <= i < |a + b| && (a + b)[i].typ == typ {
      if i < |a| {
        assert a[i].typ == typ;
      } else {
        assert b[i - |a|].typ == typ;
      }
    }
  }

  lemma SegmentIf(present: bool, p: Prog, typ: u32)
    ensures HasSegment(ProgIf(present, p), typ) <==> present && p.typ == typ
  {
    if present {
      assert ProgIf(present, p)[0] == p;
    }
  }

  /** Which segment types a written header list has. */
  lemma SegmentsOfList(l: Layout, interpOff: nat, interpLen: nat, dynOff: nat, dynLen: nat, total: nat, typ: u32)
    ensures HasSegment(ProgList(l, interpOff, interpLen, dynOff, dynLen, total), typ) <==>
            || typ == PT_LOAD || (typ == PT_INTERP && interpLen > 0) || (typ == PT_DYNAMIC && dynLen > 0)
            || (typ == PT_GNU_RELRO && l.relro) || (typ == PT_OHOS_RETGUARD && l.retguard)
            || (typ == PT_GNU_STACK && !l.noStack)
  {
    hide HasSegment;
    var load := Segment(PT_LOAD, PF_R + PF_X, 0, BASE_VADDR, total);
    var interp := Segment(PT_INTERP, PF_R, interpOff, Vaddr(interpOff), interpLen);
    var dyn := Segment(PT_DYNAMIC, PF_R + PF_W, dynOff, Vaddr(dynOff), dynLen);
    var a, b, c := ProgIf(true, load), ProgIf(interpLen > 0, interp), ProgIf(dynLen > 0, dyn);
    SegmentIf(true, load, typ);
    SegmentIf(interpLen > 0, interp, typ);
    SegmentIf(dynLen > 0, dyn, typ);
    MarkerSegments(l, total, typ);
    SegmentConcat(a, b, typ);
    SegmentConcat(a + b, c, typ);
    SegmentConcat(a + b + c, MarkerList(l, total), typ);
  }

  lemma MarkerSegments(l: Layout, total: nat, typ: u32)
    ensures HasSegment(MarkerList(l, total), typ) <==>
            || (typ == PT_GNU_RELRO && l.relro) || (typ == PT_OHOS_RETGUARD && l.retguard)
            || (typ == PT_GNU_STACK && !l.noStack)
  {
    hide HasSegment;
    var relro := Segment(PT_GNU_RELRO, PF_R, 0, BASE_VADDR, total);
    var retguard := Segment(PT_OHOS_RETGUARD, PF_R, 0, BASE_VADDR, 0);
    var stack := Segment(PT_GNU_STACK, StackFlags(l), 0, 0, 0);
    var a, b, c := ProgIf(l.relro, relro), ProgIf(l.retguard, retguard), ProgIf(!l.noStack, stack);
    SegmentIf(l.relro, relro, typ);
    SegmentIf(l.retguard, retguard, typ);
    SegmentIf(!l.noStack, stack, typ);
    SegmentConcat(a, b, typ);
    SegmentConcat(a + b, c, typ);
  }

  /** The segments of an image are those that the layout asks for. */
  lemma SegmentsExact(l: Layout, typ: u32)
    ensures HasSegment(Progs(l), typ) <==>
            || typ == PT_LOAD || (typ == PT_INTERP && HasInterp(l)) || (typ == PT_DYNAMIC && HasDyn(l))
            || (typ == PT_GNU_RELRO && l.relro) || (typ == PT_OHOS_RETGUARD && l.retguard)
            || (typ == PT_GNU_STACK && !l.noStack)
  {
    hide HasSegment;
    InterpPresence(l);
    SegmentsOfList(l, HeaderLen(l), |InterpBytes(l)|, DynOff(l), 16 * DynCount(l), Total(l), typ);
  }

  lemma InterpPresence(l: Layout)
    ensures |InterpBytes(l)| > 0 <==> HasInterp(l)
    ensures DynCount(l) > 0 <==> HasDyn(l)
  {
  }

  // ---- Dynamic flags -----------------------------------------------------

  lemma DynTagIf(present: bool, tag: u64, val: u64, wanted: u64)
    ensures DynTag(EntryIf(present, tag, val), wanted) == if present && tag == wanted then Some(val) else None
  {
    if present {
      assert EntryIf(present, tag, val)[1..] == [];
    }
  }

  lemma FlagEntryTags(l: Layout, tag: u64)
    ensures DynTag(FlagEntries(l), tag) ==
            if tag == DT_BIND_NOW && l.bindNow then Some(0)
            else if tag == DT_TEXTREL && l.textRel then Some(0)
            else if tag == DT_FLAGS && FlagsValue(l) != 0 then Some(FlagsValue(l))
            else if tag == DT_FLAGS_1 && l.flags1Pie then Some(DF_1_PIE)
            else None
  {
    hide DynTag;
    var a, b := EntryIf(l.bindNow, DT_BIND_NOW, 0), EntryIf(l.textRel, DT_TEXTREL, 0);
    var c, d := EntryIf(FlagsValue(l) != 0, DT_FLAGS, FlagsValue(l)), EntryIf(l.flags1Pie, DT_FLAGS_1, DF_1_PIE);
    DynTagIf(l.bindNow, DT_BIND_NOW, 0, tag);
    DynTagIf(l.textRel, DT_TEXTREL, 0, tag);
    DynTagIf(FlagsValue(l) != 0, DT_FLAGS, FlagsValue(l), tag);
    DynTagIf(l.flags1Pie, DT_FLAGS_1, DF_1_PIE, tag);
    DynTagConcat(a, b, tag);
    DynTagConcat(a + b, c, tag);
    DynTagConcat(a + b + c, d, tag);
  }

  predicate IsFlagTag(tag: u64) {
    tag in {DT_BIND_NOW, DT_TEXTREL, DT_FLAGS, DT_FLAGS_1}
  }

  lemma SymAndPathTags(l: Layout, needed: u64, symtab: u64, strtab: u64, strsz: u64, rpath: u64, runpath: u64, tag: u64)
    requires IsFlagTag(tag)
    ensures DynTag(SymEntries(HasSyms(l), needed, symtab, strtab, strsz), tag) == None
    ensures DynTag(PathEntries(l, rpath, runpath), tag) == None
  {
    NoTag(SymEntries(HasSyms(l), needed, symtab, strtab, strsz), tag);
    NoTag(PathEntries(l, rpath, runpath), tag);
  }

  lemma FlagTags(l: Layout, tag: u64)
    requires IsFlagTag(tag)
    ensures DynTag(DynTable(l), tag) == DynTag(FlagEntries(l), tag)
  {
    hide SymEntries, PathEntries, FlagEntries, DynTag, StrTab;
    var a := SymEntries(HasSyms(l), NeededSlot(l), Vaddr(SymOff(l)), Vaddr(StrOff(l)), U64(|StrTab(l)|));
    var b := PathEntries(l, RpathSlot(l), RunpathSlot(l));
    SymAndPathTags(l, NeededSlot(l), Vaddr(SymOff(l)), Vaddr(StrOff(l)), U64(|StrTab(l)|), RpathSlot(l), RunpathSlot(l),
                   tag);
    DynTagConcat(a + b, FlagEntries(l), tag);
    DynTagConcat(a, b, tag);
  }

  lemma FlagBits(l: Layout)
    ensures HasBit(FlagsValue(l), DF_BIND_NOW) == l.flagsBind
    ensures HasBit(FlagsValue(l), DF_TEXTREL) == l.flagsTextRel
    ensures HasBit(DF_1_PIE, DF_1_PIE) && !HasBit(DF_1_PIE, DF_1_NOW)
    ensures FlagsValue(l) != 0 <==> l.flagsBind || l.flagsTextRel
  {
  }

  /** What the written dynamic section announces. */
  lemma TableFlags(l: Layout)
    ensures AnnouncesNow(DynTable(l)) == (l.bindNow || l.flagsBind)
    ensures TextRelocations(DynTable(l)) == (l.textRel || l.flagsTextRel)
    ensures DynTag(DynTable(l), DT_FLAGS_1) == if l.flags1Pie then Some(DF_1_PIE) else None
  {
    hide DynTable, DynTag, HasBit, FlagsValue, FlagEntries;
    FlagTags(l, DT_BIND_NOW);
    FlagTags(l, DT_TEXTREL);
    FlagTags(l, DT_FLAGS);
    FlagTags(l, DT_FLAGS_1);
    FlagEntryTags(l, DT_BIND_NOW);
    FlagEntryTags(l, DT_TEXTREL);
    FlagEntryTags(l, DT_FLAGS);
    FlagEntryTags(l, DT_FLAGS_1);
    FlagBits(l);
  }

  lemma NoSectionFlags()
    ensures !AnnouncesNow(NO_SECTIONS.dynamic) && DynTag(NO_SECTIONS.dynamic, DT_FLAGS_1) == None
  {
  }

  // ---- Verdicts ----------------------------------------------------------

  /** Binding is immediate exactly when one of the two flags asks for it. */
  lemma BindNowOfImage(l: Layout)
    requires Buildable(l)
    ensures BindNowOf(Opened(l), Image(l)) == (l.bindNow || l.flagsBind)
    ensures BindNow(Opened(l), Image(l)) ==
            if l.bindNow || l.flagsBind then OkResult("Bind now") else BadResult("Lazy binding")
  {
    hide Image, DynTable, Dynamic, AnnouncesNow, Progs, Buildable, TextRelocations, DynTag;
    DynamicRoundTrip(l);
    TableFlags(l);
    NoSectionFlags();
  }

  /** Full RELRO exactly with the segment and immediate binding. */
  lemma RelroOfImage(l: Layout)
    requires Buildable(l)
    ensures RelroVerdict(Opened(l), Image(l)) ==
            if !l.relro then BadResult("No RELRO")
            else if l.bindNow || l.flagsBind then OkResult("Full RELRO")
            else WarnResult("Partial RELRO")
  {
    hide Image, BindNowOf, BindNow, HasSegment, Progs, Buildable, PhdrCount;
    SegmentsExact(l, PT_GNU_RELRO);
    BindNowOfImage(l);
    SomeSegment(l);
  }

  lemma SomeSegment(l: Layout)
    ensures Progs(l) != [] && |Progs(l)| <= 6
  {
    CountsSound(l);
  }

  /** Static PIE exactly for ET_DYN with DF_1_PIE and no interpreter. */
  lemma PieOfImage(l: Layout)
    requires Buildable(l)
    ensures PieVerdict(Opened(l), Image(l)) ==
            if !(l.pie || l.etDyn) then BadResult("PIE disabled")
            else if l.flags1Pie && !l.interp && !l.pie then OkResult("Static PIE")
            else if l.flags1Pie || l.interp || l.pie then OkResult("PIE enabled")
            else InfoResult("DSO (shared library)")
  {
    hide Image, DynTable, Dynamic, HasSegment, Progs, DynTag, HasBit, Buildable, FlagsValue, AnnouncesNow,
      TextRelocations;
    SegmentsExact(l, PT_INTERP);
    DynamicRoundTrip(l);
    TableFlags(l);
    NoSectionFlags();
    FlagBits(l);
    assert Flags1(Opened(l), Image(l)) == if l.flags1Pie then DF_1_PIE else 0;
    NoBits();
  }

  lemma NoBits()
    ensures !HasBit(0, DF_1_PIE)
  {
  }

  /** Text relocations exactly when a dynamic image announces them. */
  lemma PicOfImage(l: Layout)
    requires Buildable(l)
    ensures Pic(Opened(l), Image(l)) ==
            if !(l.pie || l.etDyn) then NaResult("N/A")
            else if l.textRel || l.flagsTextRel then BadResult("Text relocations (not PIC)")
            else OkResult("PIC enabled (no text relocations)")
  {
    hide Image, DynTable, Dynamic, Progs, TextRelocations, Buildable, AnnouncesNow, DynTag;
    DynamicRoundTrip(l);
    TableFlags(l);
  }

  lemma {:induction false} StackIndexConcat(a: seq<Prog>, b: seq<Prog>)
    requires !HasSegment(a, PT_GNU_STACK)
    ensures StackIndex(a + b) == |a| + StackIndex(b)
  {
    if a == [] {
      assert a + b == b;
    } else {
      assert a[0].typ != PT_GNU_STACK;
      assert (a + b)[1..] == a[1..] + b;
      assert forall i :: 0 <= i < |a| - 1 ==> a[1..][i] == a[i + 1];
      StackIndexConcat(a[1..], b);
    }
  }

  lemma StackLast(l: Layout, a: seq<Prog>, progs: seq<Prog>)
    requires !HasSegment(a, PT_GNU_STACK)
    requires progs == a + ProgIf(!l.noStack, Segment(PT_GNU_STACK, StackFlags(l), 0, 0, 0))
    ensures if l.noStack then StackIndex(progs) == |progs|
            else StackIndex(progs) < |progs| && progs[StackIndex(progs)].flags == StackFlags(l)
  {
    StackIndexConcat(a, ProgIf(!l.noStack, Segment(PT_GNU_STACK, StackFlags(l), 0, 0, 0)));
  }

  lemma StackOfList(l: Layout, interpOff: nat, interpLen: nat, dynOff: nat, dynLen: nat, total: nat)
    ensures var progs := ProgList(l, interpOff, interpLen, dynOff, dynLen, total);
            if l.noStack then StackIndex(progs) == |progs|
            else StackIndex(progs) < |progs| && progs[StackIndex(progs)].flags == StackFlags(l)
  {
    hide HasSegment, StackIndex;
    var load := Segment(PT_LOAD, PF_R + PF_X, 0, BASE_VADDR, total);
    var interp := Segment(PT_INTERP, PF_R, interpOff, Vaddr(interpOff), interpLen);
    var dyn := Segment(PT_DYNAMIC, PF_R + PF_W, dynOff, Vaddr(dynOff), dynLen);
    var relro := Segment(PT_GNU_RELRO, PF_R, 0, BASE_VADDR, total);
    var retguard := Segment(PT_OHOS_RETGUARD, PF_R, 0, BASE_VADDR, 0);
    var a, b, c := ProgIf(true, load), ProgIf(interpLen > 0, interp), ProgIf(dynLen > 0, dyn);
    var d, e := ProgIf(l.relro, relro), ProgIf(l.retguard, retguard);
    SegmentIf(true, load, PT_GNU_STACK);
    SegmentIf(interpLen > 0, interp, PT_GNU_STACK);
    SegmentIf(dynLen > 0, dyn, PT_GNU_STACK);
    SegmentIf(l.relro, relro, PT_GNU_STACK);
    SegmentIf(l.retguard, retguard, PT_GNU_STACK);
    SegmentConcat(a, b, PT_GNU_STACK);
    SegmentConcat(a + b, c, PT_GNU_STACK);
    SegmentConcat(a + b + c, d, PT_GNU_STACK);
    SegmentConcat(a + b + c + d, e, PT_GNU_STACK);
    var stack := ProgIf(!l.noStack, Segment(PT_GNU_STACK, StackFlags(l), 0, 0, 0));
    assert a + b + c + (d + e + stack) == a + b + c + d + e + stack;
    StackLast(l, a + b + c + d + e, ProgList(l, interpOff, interpLen, dynOff, dynLen, total));
  }

  lemma StackBits(l: Layout)
    ensures HasBit(StackFlags(l), PF_X) == l.gnuStackX
  {
  }

  /** The stack verdict follows the stack header, and only a missing one leaves it open. */
  lemma NxOfImage(l: Layout)
    ensures NxVerdict(Opened(l)) ==
            if l.noStack then WarnResult("NX unknown (no GNU_STACK)")
            else if l.gnuStackX then BadResult("NX disabled")
            else OkResult("NX enabled")
  {
    hide StackIndex, HasBit, ProgList, StackFlags, HeaderLen, InterpBytes, DynOff, DynCount, Total;
    StackOfList(l, HeaderLen(l), |InterpBytes(l)|, DynOff(l), 16 * DynCount(l), Total(l));
    SomeSegment(l);
    StackBits(l);
  }

  /** Retguard counts exactly on AArch64 with its marker segment. */
  lemma RetguardOfImage(l: Layout)
    ensures OhosRetguard(Opened(l)) ==
            if l.machine != EM_AARCH64 then NaResult("N/A (not AArch64)")
            else if l.retguard then OkResult("Retguard enabled")
            else BadResult("No retguard")
  {
    hide HasSegment, Progs, HasInterp, HasDyn;
    SegmentsExact(l, PT_OHOS_RETGUARD);
  }

  // ---- Pointer authentication --------------------------------------------

  lemma WholeFileRead(raw: seq<byte>, p: Prog)
    requires p.off == 0 && p.filesz == |raw| && |raw| > 0
    ensures ReadSegment(raw, p) == Read(raw, Full)
  {
  }

  lemma OnlyLoadExecutes(l: Layout, raw: seq<byte>, interpOff: nat, interpLen: nat, dynOff: nat, dynLen: nat,
                         total: nat)
    requires total == |raw| && 0 < total < TWO_TO_63
    ensures var progs := ProgList(l, interpOff, interpLen, dynOff, dynLen, total);
            (exists i :: 0 <= i < |progs| && SegmentHasCode(raw, progs[i])) <==> ContainsCode(raw)
  {
    var progs := ProgList(l, interpOff, interpLen, dynOff, dynLen, total);
    var load := progs[0];
    assert load == Prog(PT_LOAD, PF_R + PF_X, 0, BASE_VADDR, total, total);
    WholeFileRead(raw, load);
    OtherNotLoad(l, interpOff, interpLen, dynOff, dynLen, total);
    hide ContainsCode, ProgList, ReadSegment;
    assert SegmentHasCode(raw, load) <==> ContainsCode(raw);
    assert forall i :: 1 <= i < |progs| ==> !SegmentHasCode(raw, progs[i]);
  }

  lemma PacInTable(l: Layout)
    requires l.pacIBSP
    ensures ContainsCode(Image(l))
  {
    hide Image, Holds, Packed, Names, StrOff, Total, ContainsCode;
    ImageHolds(l);
    StrInImage(l, Image(l));
    CodeAtEnd(Image(l), StrOff(l), Packed(Names(l)), StrTab(l));
  }

  lemma CodeAtEnd(raw: seq<byte>, off: nat, before: seq<byte>, str: seq<byte>)
    requires str == before + PACIBSP && off + |str| <= |raw| && raw[off..off + |str|] == str
    ensures ContainsCode(raw)
  {
    var at := off + |before|;
    assert str[|before|..] == PACIBSP;
    assert raw[at..at + 4] == raw[off..off + |str|][|before|..];
    assert CodeAt(raw, at);
  }

  lemma ImageNotEmpty(l: Layout)
    ensures |Image(l)| == Total(l) > 0
  {
    LayoutSound(l);
  }

  /** On AArch64 the verdict says whether the image contains the instruction; a layout that
      embeds it always does. */
  lemma PacOfImage(l: Layout)
    requires Buildable(l)
    ensures PacCfiVerdict(Opened(l), Image(l)) ==
            if l.machine != EM_AARCH64 then NaResult("N/A (not AArch64)")
            else if ContainsCode(Image(l)) then OkResult("PAC CFI enabled")
            else BadResult("No PAC CFI")
    ensures l.pacIBSP ==> ContainsCode(Image(l))
  {
    hide Image, ContainsCode, SegmentHasCode, ProgList, HeaderLen, InterpBytes, DynOff, DynCount, Total;
    ImageNotEmpty(l);
    OnlyLoadExecutes(l, Image(l), HeaderLen(l), |InterpBytes(l)|, DynOff(l), 16 * DynCount(l), Total(l));
    if l.pacIBSP {
      PacInTable(l);
    }
  }

  // ---- Symbols -----------------------------------------------------------

  lemma OnlyPhdrNames(l: Layout)
    requires Buildable(l)
    ensures Scannable(Opened(l), Image(l))
    ensures AdvertisedNames(Opened(l), Image(l)) == FoundNames(l)
    ensures Fortify.Referenced(Opened(l), Image(l)) == FoundNames(l)
  {
    hide Image, FoundNames, Progs, Scannable, SymbolNamesPH, Buildable;
    SymbolNamesExact(l);
  }

  /** The canary is found exactly when a name the scan finds has a canary prefix; for layouts
      whose symbols survive, when a function name of the layout has one. */
  lemma CanaryOfImage(l: Layout)
    requires Buildable(l)
    ensures Scannable(Opened(l), Image(l))
    ensures CanaryVerdict(Opened(l), Image(l)) ==
            if SomeCanary(FoundNames(l)) then OkResult("Canary found") else BadResult("No canary found")
    ensures SymbolsSurvive(l) ==> FoundNames(l) == l.dynSyms
  {
    hide Image, FoundNames, Opened, Scannable, SymbolNamesPH, AdvertisedNames, FirstOccurrences, SomeCanary,
      SymbolsSurvive, Buildable, Fortify.Referenced;
    OnlyPhdrNames(l);
    CanaryOfNames(FoundNames(l));
    SymbolNamesExact(l);
    SymbolRoundTripExact(l);
  }

  // ---- Paths and libc ----------------------------------------------------

  lemma NoSectionStrings(tag: u64)
    ensures SectionStrings(NO_SECTIONS.dynstr, NO_SECTIONS.dynamic, tag) == []
  {
  }

  lemma StringsForImage(l: Layout, tag: u64)
    requires Buildable(l) && tag in {DT_NEEDED, DT_RPATH, DT_RUNPATH}
    ensures DynamicStringsFor(Opened(l), Image(l), tag) == if TableFound(l) then StoredStrings(l, tag) else []
  {
    hide Image, DynStringsPH, StoredStrings, TableFound, SectionStrings, Progs, Buildable;
    NoSectionStrings(tag);
    StringRoundTrip(l, tag);
  }

  /** The strings of a tag that a reader of the image finds. */
  function FoundStrings(l: Layout, tag: u64): seq<GoString> {
    if TableFound(l) then StoredStrings(l, tag) else []
  }

  /** Both path checks judge exactly the recorded paths, as far as they can be found. */
  lemma PathsOfImage(l: Layout, stat: string -> Rpath.Stat)
    requires Buildable(l)
    ensures Rpath.RpathVerdict(stat, Opened(l), Image(l)) == Rpath.RpathStrictVerdict(stat, FoundStrings(l, DT_RPATH))
    ensures Rpath.RunpathCheck(stat, Opened(l), Image(l)) ==
            Rpath.RunpathVerdict(stat, "RUNPATH", FoundStrings(l, DT_RUNPATH))
  {
    hide Image, Opened, DynamicStringsFor, TableFound, StoredStrings, Rpath.RpathStrictVerdict, Rpath.RunpathVerdict,
      Buildable;
    StringsForImage(l, DT_RPATH);
    StringsForImage(l, DT_RUNPATH);
  }

  predicate SomeEntry(entries: seq<GoString>) {
    exists i :: 0 <= i < |entries| && entries[i] != ""
  }

  /** RPATH is bad exactly when the layout has a non-empty entry and a readable string table:
      without symbols the recorded path goes unnoticed. */
  lemma RpathOfImage(l: Layout, stat: string -> Rpath.Stat)
    requires Buildable(l)
    ensures Rpath.RpathVerdict(stat, Opened(l), Image(l)).status ==
            if TableFound(l) && SomeEntry(l.rpath) then Bad else Good
  {
    hide Image, Opened, DynamicStringsFor, TableFound, JoinedPath, Rpath.RpathStrictVerdict, Rpath.RunpathVerdict,
      Buildable, UntilNul;
    StringsForImage(l, DT_RPATH);
    PathPresent(l.rpath);
    Rpath.SummariesMonotone(stat, "", DynamicStringsFor(Opened(l), Image(l), DT_RPATH), []);
    RpathGood(stat);
  }

  lemma RpathGood(stat: string -> Rpath.Stat)
    ensures Rpath.RpathStrictVerdict(stat, []).status == Good
  {
  }

  lemma LibcIsLibc()
    ensures IsLibcName(LIBC)
  {
  }

  /** FORTIFY analysis applies exactly when the image names its libc, that is, when the string
      table is found. */
  lemma LibcOfImage(l: Layout)
    requires Buildable(l)
    ensures NoLibc(Opened(l), Image(l)) == !TableFound(l)
  {
    hide Image, Progs, HasSegment, DynamicStringsFor, IsLibcName, StrTab, Buildable, JoinedPath, UntilNul;
    SegmentsExact(l, PT_DYNAMIC);
    StringsForImage(l, DT_NEEDED);
    LibcIsLibc();
    if TableFound(l) {
      assert StoredStrings(l, DT_NEEDED) == [LIBC];
      assert DynamicStringsFor(Opened(l), Image(l), DT_NEEDED)[0] == LIBC;
      assert SomeLibc(DynamicStringsFor(Opened(l), Image(l), DT_NEEDED));
    }
  }
}
