/** Files with a single dynamic symbol that is not a function: what stripping their section headers loses. */
module StrippedExamples {
  import opened Bytes
  import opened Results
  import opened Elf
  import opened Dyn
  import opened DynProperties
  import opened ElfGen
  import opened SymbolReading
  import opened Detectors
  import opened SectionAgreement
  import opened StrippedSymbols
  import opened Fortify

  // ---- The files ---------------------------------------------------------

  /** A name whose table is shorter than a symbol record, so that nothing is misread from it. */
  predicate ShortName(name: GoString) {
    0 < |name| <= 21 && '\0' !in name
  }

  function NameTable(name: GoString): (str: seq<byte>)
    ensures |str| == |name| + 2
  {
    [0] + BytesOf(name) + [0]
  }

  function OneRecord(info: byte): SymRecord {
    SymRecord(1, info)
  }

  function OneEntries(size: u64): seq<DynEntry> {
    [DynEntry(DT_SYMTAB, 0x1050), DynEntry(DT_STRTAB, 0x1068), DynEntry(DT_STRSZ, size), DynEntry(DT_SYMENT, SYM_SIZE)]
  }

  /** The dynamic entries and their terminator, the symbol, and the string table. */
  function OneRaw(name: GoString, info: byte): seq<byte>
    requires ShortName(name)
  {
    EntriesBytes(OneEntries(|name| + 2), Elf64, LittleEndian) + EntryBytes(STOP, Elf64, LittleEndian) +
    SymBytes(OneRecord(info)) + NameTable(name)
  }

  function OneLoad(name: GoString): Prog
    requires ShortName(name)
  {
    Prog(PT_LOAD, PF_R, 0, 0x1000, 106 + |name|, 106 + |name|)
  }

  /** Its section headers list the same entries and the same symbol. */
  function OneFile(name: GoString, info: byte): ElfFile
    requires ShortName(name)
  {
    ElfFile(Elf64, LittleEndian, ET_DYN, EM_X86_64, [OneLoad(name), Prog(PT_DYNAMIC, PF_R, 0, 0x1000, 80, 80)],
            Sections(OneEntries(|name| + 2) + [STOP], NameTable(name), None, Some([Sym(name, info)]), None, false))
  }

  // ---- Reading them ------------------------------------------------------

  lemma OneSlices(name: GoString, info: byte)
    requires ShortName(name)
    ensures var raw := OneRaw(name, info);
            && |raw| == 106 + |name| && raw[80..] == SymBytes(OneRecord(info)) + NameTable(name)
            && raw[104..106 + |name|] == NameTable(name)
            && DynEntries(raw[..80], Elf64, LittleEndian) == OneEntries(|name| + 2)
  {
    Pow256Values();
    var es := OneEntries(|name| + 2);
    EntriesRoundTrip(es, STOP, [], Elf64, LittleEndian);
    hide EntriesBytes, EntryBytes, DynEntries, SymBytes, NameTable;
    var b := EntriesBytes(es, Elf64, LittleEndian) + EntryBytes(STOP, Elf64, LittleEndian);
    OneParts(OneRaw(name, info), b, SymBytes(OneRecord(info)), NameTable(name));
    assert b + [] == b;
  }

  lemma OneParts(raw: seq<byte>, b: seq<byte>, sym: seq<byte>, str: seq<byte>)
    requires raw == b + sym + str && |b| == 80 && |sym| == 24
    ensures raw[..80] == b && raw[80..] == sym + str && raw[104..104 + |str|] == str
  {
  }

  lemma OneDynamic(name: GoString, info: byte)
    requires ShortName(name)
    ensures Dynamic(OneFile(name, info), OneRaw(name, info)) == OneEntries(|name| + 2)
  {
    OneSlices(name, info);
    var f, raw := OneFile(name, info), OneRaw(name, info);
    var dyn := Prog(PT_DYNAMIC, PF_R, 0, 0x1000, 80, 80);
    hide DynEntries, OneRaw, OneEntries, NameTable, SymBytes;
    assert raw[0..80] == raw[..80];
    assert ReadSegment(raw, dyn) == Read(raw[..80], Full);
    assert f.progs[1..] == [dyn] && [dyn][1..] == [];
    assert PtDynamic([], Elf64, LittleEndian, raw) == [];
    assert PtDynamic([dyn], Elf64, LittleEndian, raw) == OneEntries(|name| + 2);
  }

  lemma OneTags(size: u64)
    ensures var es := OneEntries(size);
            && DynTag(es, DT_SYMTAB) == Some(0x1050) && DynTag(es, DT_STRTAB) == Some(0x1068)
            && DynTag(es, DT_STRSZ) == Some(size) && DynTag(es, DT_SYMENT) == Some(SYM_SIZE)
  {
    DynTagFirst(OneEntries(size), DT_SYMTAB, 0);
    DynTagFirst(OneEntries(size), DT_STRTAB, 1);
    DynTagFirst(OneEntries(size), DT_STRSZ, 2);
    DynTagFirst(OneEntries(size), DT_SYMENT, 3);
  }

  lemma OneOffset(progs: seq<Prog>, name: GoString, off: nat)
    requires ShortName(name) && |progs| > 0 && progs[0] == OneLoad(name) && off < 106 + |name|
    ensures VaddrToFileOffset(progs, 0x1000 + off) == Some(off)
    ensures ScanLimit(progs, 0x1000 + off) == 106 + |name| - off
  {
    CoversExactly(progs[0], 0x1000 + off);
    assert CoveringLoad(progs, 0x1000 + off) == Some(progs[0]);
    OffsetInSegment(progs, 0x1000 + off);
    LimitIsSegmentRoom(progs, 0x1000 + off);
  }

  /** Where the symbol is found. */
  function OneTable(name: GoString): SymTable
    requires ShortName(name)
  {
    SymTable(NameTable(name), 80, SYM_SIZE, 26 + |name|)
  }

  lemma OneStrings(progs: seq<Prog>, name: GoString, info: byte)
    requires ShortName(name) && |progs| > 0 && progs[0] == OneLoad(name)
    ensures DynamicStrings(progs, OneRaw(name, info), OneEntries(|name| + 2)) == Some(NameTable(name))
  {
    hide OneRaw, OneEntries, DynTag, VaddrToFileOffset, DynamicStrings, ScanLimit, SymBytes, DynEntries;
    OneSlices(name, info);
    OneTags(|name| + 2);
    OneOffset(progs, name, 104);
    StringsAt(progs, OneRaw(name, info), OneEntries(|name| + 2), 0x1068, 104, NameTable(name));
  }

  lemma OneFound(name: GoString, info: byte)
    requires ShortName(name)
    ensures FindSymTable(OneFile(name, info), OneRaw(name, info)) == Some(OneTable(name))
  {
    hide OneRaw, OneEntries, DynTag, VaddrToFileOffset, DynamicStrings, ScanLimit, Dynamic, FindSymTable, NameTable;
    var f, raw := OneFile(name, info), OneRaw(name, info);
    OneDynamic(name, info);
    OneTags(|name| + 2);
    OneOffset(f.progs, name, 80);
    OneStrings(f.progs, name, info);
    TableAt(f, raw, OneEntries(|name| + 2), 0x1050, NameTable(name), 80);
  }

  /** The scan reads the one record; the table behind it is too short for another. */
  lemma OneScanned(name: GoString, info: byte)
    requires ShortName(name)
    ensures RecordsFrom(Elf64, LittleEndian, OneRaw(name, info), OneTable(name), 0) == [OneRecord(info)]
  {
    OneSlices(name, info);
    hide OneRaw, NameTable, SymBytes, RecordsFrom, DynEntries;
    var raw, rec := OneRaw(name, info), OneRecord(info);
    assert raw[80..106 + |name|] == raw[80..];
    ScanDecodes(raw, OneTable(name), 0);
    assert SymTableBytes([rec]) == SymBytes(rec) + [] == SymBytes(rec) by {
      assert [rec][1..] == [];
    }
    DecodedSyms([rec], NameTable(name));
    assert Decoded(NameTable(name)) == [];
    assert [rec] + [] == [rec];
  }

  lemma OneNamed(name: GoString, info: byte)
    requires ShortName(name)
    ensures SectionName(NameTable(name), OneRecord(info)) == name
  {
    assert NameTable(name) == [0] + BytesOf(name) + [0] + [];
    SlotReadsName([0], name, []);
    UntilNulWhole(name);
    hide NameTable, UntilNul;
    FoundIsTerminated(NameTable(name), 1, name);
  }

  lemma FoundIsTerminated(str: seq<byte>, off: u64, n: GoString)
    requires CstrAt(str, off) == Some(n) && off + |n| < |str|
    ensures Terminated(str, off)
  {
  }

  /** Both views of these files hold the same entries, strings and symbol table. */
  lemma OneShared(name: GoString, info: byte)
    requires ShortName(name)
    ensures var f, raw := OneFile(name, info), OneRaw(name, info);
            && Scannable(f, raw) && SharedTable(f, raw, 0, 1) && SameStrings(f, raw)
            && Listed(f, raw, 0, 1) == ScannedRecords(f, raw) == [OneRecord(info)]
            && ScannedStrings(f, raw) == NameTable(name)
  {
    hide OneRaw, NameTable, FindSymTable, RecordsFrom, SectionName, Dynamic, DynamicStrings, OneEntries;
    var f, raw := OneFile(name, info), OneRaw(name, info);
    OneFound(name, info);
    OneScanned(name, info);
    OneNamed(name, info);
    OneDynamic(name, info);
    OneStrings(f.progs, name, info);
    assert [OneRecord(info)][0..1] == [OneRecord(info)];
    assert (OneEntries(|name| + 2) + [STOP])[|OneEntries(|name| + 2)|..] == [STOP];
    assert SectionSyms([OneRecord(info)], NameTable(name)) == [Sym(name, info)];
  }

  /** Unless it is a function, no function record of any base name exists. */
  lemma NoFunctionBase(info: byte, str: seq<byte>, base: string)
    requires info % 16 != STT_FUNC
    ensures !FunctionBase([OneRecord(info)], str, base) && !CanaryFunction([OneRecord(info)], str)
  {
  }

  // ---- What is lost ------------------------------------------------------

  const CANARY_NAME: GoString := "__stack_chk_fail"
  const MEMCPY_NAME: GoString := "memcpy"
  const MEMCPY_CHK_NAME: GoString := "__memcpy_chk"
  const UNTYPED_INFO := 0x10

  /** A canary that is an object is found with section headers only. */
  lemma ObjectCanaryLost()
    ensures var f, raw := OneFile(CANARY_NAME, OBJECT_INFO), OneRaw(CANARY_NAME, OBJECT_INFO);
            && Scannable(f, raw) && SharedTable(f, raw, 0, 1) && Scannable(Stripped(f), raw)
            && CanaryVerdict(f, raw) == OkResult("Canary found")
            && CanaryVerdict(Stripped(f), raw) == BadResult("No canary found")
  {
    hide OneRaw, Scannable, SharedTable, IsCanarySymbol, SameStrings, SymbolNamesPH, FirstOccurrences, NameTable,
      OneEntries;
    var f, raw := OneFile(CANARY_NAME, OBJECT_INFO), OneRaw(CANARY_NAME, OBJECT_INFO);
    OneShared(CANARY_NAME, OBJECT_INFO);
    CanarySurvivesStripping(f, raw, 0, 1);
    NoFunctionBase(OBJECT_INFO, NameTable(CANARY_NAME), "");
    CanaryIsCanary();
    var names := AdvertisedNames(f, raw);
    assert names[0] == CANARY_NAME;
    CanaryOfNames(names);
    OneNamed(CANARY_NAME, OBJECT_INFO);
    assert CanaryListed([OneRecord(OBJECT_INFO)], NameTable(CANARY_NAME)) by {
      assert IsCanarySymbol(SectionName(NameTable(CANARY_NAME), [OneRecord(OBJECT_INFO)][0]));
    }
  }

  lemma CanaryIsCanary()
    ensures IsCanarySymbol(CANARY_NAME)
  {
    assert CANARY_PREFIXES[0] == CANARY_NAME;
  }

  /** An unprotected memcpy that is an object counts with section headers only. */
  lemma ObjectMemcpyLost()
    ensures var f, raw := OneFile(MEMCPY_NAME, OBJECT_INFO), OneRaw(MEMCPY_NAME, OBJECT_INFO);
            && Scannable(f, raw) && SharedTable(f, raw, 0, 1) && Scannable(Stripped(f), raw)
            && Unprotected(Stripped(f), raw) != Unprotected(f, raw)
  {
    hide OneRaw, Scannable, SharedTable, SameStrings, NameTable, OneEntries, Unprotected, SectionName, CheckableBases,
      FunctionBase;
    var f, raw := OneFile(MEMCPY_NAME, OBJECT_INFO), OneRaw(MEMCPY_NAME, OBJECT_INFO);
    OneShared(MEMCPY_NAME, OBJECT_INFO);
    UnprotectedSurvivesStripping(f, raw, 0, 1);
    NoFunctionBase(OBJECT_INFO, NameTable(MEMCPY_NAME), MEMCPY_NAME);
    OneNamed(MEMCPY_NAME, OBJECT_INFO);
    MemcpyNames();
    assert SectionName(NameTable(MEMCPY_NAME), [OneRecord(OBJECT_INFO)][0]) == MEMCPY_NAME;
  }

  /** A fortified call recorded as an untyped symbol counts with section headers only. */
  lemma UntypedFortifiedLost()
    ensures var f, raw := OneFile(MEMCPY_CHK_NAME, UNTYPED_INFO), OneRaw(MEMCPY_CHK_NAME, UNTYPED_INFO);
            && Scannable(f, raw) && SharedTable(f, raw, 0, 1) && Scannable(Stripped(f), raw)
            && FortifiedNames(Stripped(f), raw) != FortifiedNames(f, raw)
  {
    hide OneRaw, Scannable, SharedTable, SameStrings, NameTable, OneEntries, FortifiedNames, SectionName,
      IsFortifyChkName, FunctionBase;
    var f, raw := OneFile(MEMCPY_CHK_NAME, UNTYPED_INFO), OneRaw(MEMCPY_CHK_NAME, UNTYPED_INFO);
    OneShared(MEMCPY_CHK_NAME, UNTYPED_INFO);
    FortifiedSurvivesStripping(f, raw, 0, 1);
    NoFunctionBase(UNTYPED_INFO, NameTable(MEMCPY_CHK_NAME), MEMCPY_CHK_NAME);
    OneNamed(MEMCPY_CHK_NAME, UNTYPED_INFO);
    MemcpyNames();
    assert SectionName(NameTable(MEMCPY_CHK_NAME), [OneRecord(UNTYPED_INFO)][0]) == MEMCPY_CHK_NAME;
  }

  lemma MemcpyNames()
    ensures BaseSymbolName(MEMCPY_NAME) == MEMCPY_NAME && MEMCPY_NAME in CheckableBases()
    ensures BaseSymbolName(MEMCPY_CHK_NAME) == MEMCPY_CHK_NAME && IsFortifyChkName(MEMCPY_CHK_NAME)
  {
    hide CheckableBases, IsFortifyChkName, BaseSymbolName;
    MemcpySupported();
    MemcpyShape();
    Unversioned(MEMCPY_NAME);
    Unversioned(MEMCPY_CHK_NAME);
  }

  lemma Unversioned(n: string)
    requires '@' !in n
    ensures BaseSymbolName(n) == n
  {
  }

  lemma MemcpySupported()
    ensures MEMCPY_NAME in CheckableBases()
  {
    assert MEMORY_CHK[0] == MEMCPY_CHK_NAME;
    assert SUPPORTED_CHK[0] == MEMORY_CHK[0];
    BaseIsMiddle(SUPPORTED_CHK[0]);
    hide FortifyBaseName;
    assert MEMCPY_CHK_NAME[2..8] == MEMCPY_NAME;
    assert SUPPORTED_CHK[0] in SUPPORTED_CHK;
  }

  lemma MemcpyShape()
    ensures IsFortifyChkName(MEMCPY_CHK_NAME)
  {
    assert MEMCPY_CHK_NAME[8..] == "_chk" && "__" <= MEMCPY_CHK_NAME;
  }
}
