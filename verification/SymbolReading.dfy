/** Strings and symbols of a generated image, read back through the program headers. */
module SymbolReading {
  import opened Bytes
  import opened Elf
  import opened Dyn
  import opened DynProperties
  import opened ElfGen
  import opened ImageReading

  // ---- Slots of the string table -----------------------------------------

  lemma {:induction false} ZeroAfterName(n: GoString, tail: seq<byte>)
    ensures IndexOfZero(BytesOf(n) + [0] + tail) == |UntilNul(n)|
  {
    var b := BytesOf(n) + [0] + tail;
    if n == "" || n[0] == '\0' {
      assert b[0] == 0;
    } else {
      assert b[0] == n[0] as int;
      assert n[0] as int != 0;
      assert b[1..] == BytesOf(n[1..]) + [0] + tail;
      ZeroAfterName(n[1..], tail);
    }
  }

  /** A slot reads back as the name stored in it, up to a NUL inside the name. */
  lemma SlotReadsName(before: seq<byte>, n: GoString, tail: seq<byte>)
    requires |before| < TWO_TO_64
    ensures CstrAt(before + BytesOf(n) + [0] + tail, |before|) == Some(UntilNul(n))
  {
    var str := before + BytesOf(n) + [0] + tail;
    var slot := BytesOf(n) + [0] + tail;
    assert str[|before|..] == slot;
    ZeroAfterName(n, tail);
    var size := |UntilNul(n)|;
    assert str[|before|..|before| + size] == slot[..size] == BytesOf(n)[..size];
    TextOfPrefix(n, UntilNul(n));
    hide UntilNul, IndexOfZero, Text, BytesOf;
  }

  lemma TextOfPrefix(n: GoString, p: GoString)
    requires p <= n
    ensures Text(BytesOf(n)[..|p|]) == p
  {
  }

  lemma {:induction false} PackedPrefix(a: seq<GoString>, b: seq<GoString>)
    ensures Packed(a) <= Packed(a + b)
    decreases |b|
  {
    if b == [] {
      assert a + b == a;
    } else {
      var last := |b| - 1;
      assert (a + b)[..|a + b| - 1] == a + b[..last];
      PackedPrefix(a, b[..last]);
    }
  }

  lemma PackedLength(names: seq<GoString>)
    ensures |Packed(names)| ==
            if names == [] then 1 else |Packed(names[..|names| - 1])| + |names[|names| - 1]| + 1
  {
  }

  lemma SmallSlot(placed: seq<GoString>)
    requires |Packed(placed)| < TWO_TO_32
    ensures SlotAfter(placed) == |Packed(placed)|
  {
    hide Packed;
  }

  /** The slot after `placed` holds the next name, in every table that starts with both. */
  lemma SlotHolds(placed: seq<GoString>, n: GoString, str: seq<byte>)
    requires Packed(placed + [n]) <= str && |str| <= MAX_STRSZ
    ensures SlotAfter(placed) == |Packed(placed)| < |str|
    ensures CstrAt(str, SlotAfter(placed)) == Some(UntilNul(n))
  {
    PackedAppend(placed, n);
    var slots := Packed(placed);
    var packed := slots + BytesOf(n) + [0];
    var tail := str[|packed|..];
    assert str == packed + tail;
    assert |slots| < |str|;
    SmallSlot(placed);
    SlotReadsName(slots, n, tail);
  }

  // ---- Names of the written symbols --------------------------------------

  /** What a reader can see of `names`: each up to its first NUL, without empty ones. */
  function Visible(names: seq<GoString>): (v: seq<GoString>)
    ensures |v| <= |names|
  {
    if names == [] then []
    else
      var last := UntilNul(names[|names| - 1]);
      Visible(names[..|names| - 1]) + if last == "" then [] else [last]
  }

  predicate AllCStrings(names: seq<GoString>) {
    forall i :: 0 <= i < |names| ==> names[i] != "" && '\0' !in names[i]
  }

  /** Nothing is lost exactly when every name is non-empty and NUL-free. */
  lemma {:induction false} VisibleWhole(names: seq<GoString>)
    ensures Visible(names) == names <==> AllCStrings(names)
  {
    if names != [] {
      var before := names[..|names| - 1];
      var n := names[|names| - 1];
      VisibleWhole(before);
      UntilNulWhole(n);
      assert names == before + [n];
      if Visible(names) == names {
        assert UntilNul(n) != "";
        assert Visible(before) == Visible(names)[..|names| - 1];
        assert Visible(names)[|names| - 1] == UntilNul(n);
      }
    }
  }

  lemma {:induction false} VisibleAreCStrings(names: seq<GoString>)
    ensures AllCStrings(Visible(names))
  {
    if names != [] {
      VisibleAreCStrings(names[..|names| - 1]);
    }
  }

  /** Function records name what was stored; other records contribute nothing. */
  lemma {:induction false} SlotsName(placed: seq<GoString>, added: seq<GoString>, info: byte, str: seq<byte>)
    requires Packed(placed + added) <= str && |str| <= MAX_STRSZ
    ensures NamesOf(Slots(placed, added, info), str) == if info % 16 == STT_FUNC then Visible(added) else []
    decreases |added|
  {
    if added != [] {
      var before, n := added[..|added| - 1], added[|added| - 1];
      assert placed + added == (placed + before) + [n];
      PackedPrefix(placed + before, [n]);
      SlotsName(placed, before, info, str);
      SlotHolds(placed + before, n, str);
      NamesOfAppend(Slots(placed, before, info), SymRecord(SlotAfter(placed + before), info), str);
    }
  }

  lemma TwoTablesName(funcs: seq<GoString>, objects: seq<GoString>, str: seq<byte>)
    requires Packed(funcs + objects) <= str && |str| <= MAX_STRSZ
    ensures NamesOf(Slots([], funcs, FUNC_INFO) + Slots(funcs, objects, OBJECT_INFO), str) == Visible(funcs)
  {
    hide NamesOf, Slots, Visible, Packed;
    PackedPrefix(funcs, objects);
    assert [] + funcs == funcs;
    SlotsName([], funcs, FUNC_INFO, str);
    SlotsName(funcs, objects, OBJECT_INFO, str);
    NamesOfConcat(Slots([], funcs, FUNC_INFO), Slots(funcs, objects, OBJECT_INFO), str);
    assert Visible(funcs) + [] == Visible(funcs);
  }

  /** The symbol names come first in the string table. */
  lemma NamesPrefix(l: Layout)
    ensures Packed(SymNames(l)) <= Packed(Names(l)) <= StrTab(l)
  {
    var a, b := SymNames(l), OneIf(HasSyms(l), LIBC);
    var c := OneIf(JoinedPath(l.rpath) != "", JoinedPath(l.rpath));
    var d := OneIf(JoinedPath(l.runpath) != "", JoinedPath(l.runpath));
    assert Names(l) == a + (b + c + d);
    PackedPrefix(a, b + c + d);
  }

  // ---- Records read from the image ---------------------------------------

  /** The consecutive 24-byte records of `b`. */
  function Decoded(b: seq<byte>): (recs: seq<SymRecord>)
    ensures |recs| == |b| / SYM_SIZE
  {
    if |b| < SYM_SIZE then [] else [DecodeSym(b[..SYM_SIZE], Elf64, LittleEndian)] + Decoded(b[SYM_SIZE..])
  }

  lemma SymRoundTrip(s: SymRecord)
    ensures DecodeSym(SymBytes(s), Elf64, LittleEndian) == s
  {
    Pow256Values();
    LeRoundTrip(4, s.nameOff);
    assert SymBytes(s)[0..4] == Le(4, s.nameOff);
  }

  lemma {:induction false} DecodedSyms(syms: seq<SymRecord>, rest: seq<byte>)
    ensures Decoded(SymTableBytes(syms) + rest) == syms + Decoded(rest)
  {
    var b := SymTableBytes(syms) + rest;
    if syms == [] {
      assert b == rest;
    } else {
      assert b[..SYM_SIZE] == SymBytes(syms[0]);
      assert b[SYM_SIZE..] == SymTableBytes(syms[1..]) + rest;
      SymRoundTrip(syms[0]);
      DecodedSyms(syms[1..], rest);
    }
  }

  lemma RecordInside(raw: seq<byte>, t: SymTable, off: nat)
    requires t.syment == SYM_SIZE && 0 <= t.at && off + SYM_SIZE <= t.limit && t.at + t.limit <= |raw| < TWO_TO_63
    ensures RecordAt(Elf64, LittleEndian, raw, t, off) ==
            Some(DecodeSym(raw[t.at + off..t.at + off + SYM_SIZE], Elf64, LittleEndian))
  {
    var b := raw[t.at + off..t.at + off + SYM_SIZE];
    assert b + Zeros(0) == b;
  }

  /** With 24-byte entries and the whole table in the file, the scan decodes consecutive records. */
  lemma {:induction false} ScanDecodes(raw: seq<byte>, t: SymTable, off: nat)
    requires t.syment == SYM_SIZE && 0 <= t.at && off <= t.limit && t.at + t.limit <= |raw| < TWO_TO_63
    ensures RecordsFrom(Elf64, LittleEndian, raw, t, off) == Decoded(raw[t.at + off..t.at + t.limit])
    decreases t.limit - off
  {
    var b := raw[t.at + off..t.at + t.limit];
    if off + SYM_SIZE <= t.limit {
      RecordInside(raw, t, off);
      assert b[..SYM_SIZE] == raw[t.at + off..t.at + off + SYM_SIZE];
      assert b[SYM_SIZE..] == raw[t.at + (off + SYM_SIZE)..t.at + t.limit];
      ScanDecodes(raw, t, off + SYM_SIZE);
    }
  }

  // ---- Tags of the written dynamic section -------------------------------

  lemma NoTag(es: seq<DynEntry>, tag: u64)
    requires forall i :: 0 <= i < |es| ==> es[i].tag != tag
    ensures DynTag(es, tag) == None
  {
  }

  lemma TagInFirst(a: seq<DynEntry>, b: seq<DynEntry>, c: seq<DynEntry>, tag: u64)
    requires forall i :: 0 <= i < |b| ==> b[i].tag != tag
    requires forall i :: 0 <= i < |c| ==> c[i].tag != tag
    ensures DynTag(a + b + c, tag) == DynTag(a, tag)
  {
    DynTagConcat(a + b, c, tag);
    DynTagConcat(a, b, tag);
    NoTag(b, tag);
    NoTag(c, tag);
  }

  predicate IsSymTag(tag: u64) {
    tag in {DT_NEEDED, DT_SYMTAB, DT_STRTAB, DT_STRSZ, DT_SYMENT}
  }

  lemma OtherTags(l: Layout, rpath: u64, runpath: u64)
    ensures forall e :: e in PathEntries(l, rpath, runpath) ==> e.tag in {DT_RPATH, DT_RUNPATH}
    ensures forall e :: e in FlagEntries(l) ==> e.tag in {DT_BIND_NOW, DT_TEXTREL, DT_FLAGS, DT_FLAGS_1}
  {
  }

  lemma SymTags(l: Layout, tag: u64)
    requires IsSymTag(tag)
    ensures DynTag(DynTable(l), tag) ==
            DynTag(SymEntries(HasSyms(l), NeededSlot(l), Vaddr(SymOff(l)), Vaddr(StrOff(l)), U64(|StrTab(l)|)), tag)
  {
    hide PathEntries, FlagEntries, SymEntries;
    var a := SymEntries(HasSyms(l), NeededSlot(l), Vaddr(SymOff(l)), Vaddr(StrOff(l)), U64(|StrTab(l)|));
    OtherTags(l, RpathSlot(l), RunpathSlot(l));
    TagInFirst(a, PathEntries(l, RpathSlot(l), RunpathSlot(l)), FlagEntries(l), tag);
  }

  lemma SymEntryValues(needed: u64, symtab: u64, strtab: u64, strsz: u64)
    ensures var es := SymEntries(true, needed, symtab, strtab, strsz);
            && DynTag(es, DT_SYMTAB) == Some(symtab) && DynTag(es, DT_STRTAB) == Some(strtab)
            && DynTag(es, DT_STRSZ) == Some(strsz) && DynTag(es, DT_SYMENT) == Some(SYM_SIZE)
  {
    var es := SymEntries(true, needed, symtab, strtab, strsz);
    DynTagFirst(es, DT_SYMTAB, 1);
    DynTagFirst(es, DT_STRTAB, 2);
    DynTagFirst(es, DT_STRSZ, 3);
    DynTagFirst(es, DT_SYMENT, 4);
  }

  // ---- The string table --------------------------------------------------

  /** The dynamic string table is found exactly when there are symbols and it is at most 2^24 bytes. */
  predicate TableFound(l: Layout) {
    HasSyms(l) && |StrTab(l)| <= MAX_STRSZ
  }

  lemma SmallU64(n: nat)
    requires n < TWO_TO_64
    ensures U64(n) == n
  {
  }

  /** The five symbol entries of a layout with symbols. */
  lemma SymTagValues(l: Layout)
    requires Buildable(l) && HasSyms(l)
    ensures DynTag(DynTable(l), DT_SYMTAB) == Some(Vaddr(SymOff(l)))
    ensures DynTag(DynTable(l), DT_STRTAB) == Some(Vaddr(StrOff(l)))
    ensures DynTag(DynTable(l), DT_STRSZ) == Some(|StrTab(l)|)
    ensures DynTag(DynTable(l), DT_SYMENT) == Some(SYM_SIZE)
  {
    hide SymEntries, PathEntries, FlagEntries, DynTable, U64, Vaddr, StrTab;
    SymTags(l, DT_SYMTAB);
    SymTags(l, DT_STRTAB);
    SymTags(l, DT_STRSZ);
    SymTags(l, DT_SYMENT);
    SymEntryValues(NeededSlot(l), Vaddr(SymOff(l)), Vaddr(StrOff(l)), U64(|StrTab(l)|));
    SmallU64(|StrTab(l)|);
  }

  lemma NoSymTags(l: Layout)
    requires !HasSyms(l)
    ensures DynTag(DynTable(l), DT_SYMTAB) == None && DynTag(DynTable(l), DT_STRTAB) == None
  {
    hide SymEntries, PathEntries, FlagEntries, DynTable, U64, Vaddr, StrTab;
    SymTags(l, DT_STRTAB);
    SymTags(l, DT_SYMTAB);
    NoSymEntries(NeededSlot(l), Vaddr(SymOff(l)), Vaddr(StrOff(l)), U64(|StrTab(l)|), DT_STRTAB);
    NoSymEntries(NeededSlot(l), Vaddr(SymOff(l)), Vaddr(StrOff(l)), U64(|StrTab(l)|), DT_SYMTAB);
  }

  lemma StrInImage(l: Layout, raw: seq<byte>)
    requires Holds(raw, l)
    ensures 0 < |StrTab(l)| && StrOff(l) < Total(l) && StrOff(l) + |StrTab(l)| <= |raw|
    ensures raw[StrOff(l)..StrOff(l) + |StrTab(l)|] == StrTab(l)
  {
  }

  lemma StringsRead(l: Layout, raw: seq<byte>)
    requires Buildable(l) && Holds(raw, l)
    ensures DynamicStrings(Progs(l), raw, DynTable(l)) == if TableFound(l) then Some(StrTab(l)) else None
  {
    hide Progs, DynTable, Vaddr, StrTab, StrOff, Total, Holds, DynTag, VaddrToFileOffset, DynamicStrings, SymNames;
    StrInImage(l, raw);
    if HasSyms(l) {
      SymTagValues(l);
      AddressRoundTrip(l, StrOff(l));
      StringsAt(Progs(l), raw, DynTable(l), Vaddr(StrOff(l)), StrOff(l), StrTab(l));
    } else {
      NoSymTags(l);
      NoStrings(Progs(l), raw, DynTable(l));
    }
  }

  lemma NoStrings(progs: seq<Prog>, raw: seq<byte>, dyns: seq<DynEntry>)
    requires DynTag(dyns, DT_STRTAB) == None
    ensures DynamicStrings(progs, raw, dyns) == None
  {
  }

  lemma NoSymEntries(needed: u64, symtab: u64, strtab: u64, strsz: u64, tag: u64)
    ensures DynTag(SymEntries(false, needed, symtab, strtab, strsz), tag) == None
  {
  }

  // ---- The symbol table --------------------------------------------------

  function ScanTable(l: Layout): SymTable {
    SymTable(StrTab(l), SymOff(l), SYM_SIZE, Min(Total(l) - SymOff(l), MAX_LIMIT))
  }

  lemma TableAt(f: ElfFile, raw: seq<byte>, dyns: seq<DynEntry>, symtab: u64, str: seq<byte>, at: int)
    requires Dynamic(f, raw) == dyns
    requires DynTag(dyns, DT_SYMTAB) == Some(symtab) && DynTag(dyns, DT_SYMENT) == Some(SYM_SIZE)
    requires DynamicStrings(f.progs, raw, dyns) == Some(str)
    requires VaddrToFileOffset(f.progs, symtab) == Some(at)
    ensures FindSymTable(f, raw) == Some(SymTable(str, at, SYM_SIZE, ScanLimit(f.progs, symtab)))
  {
    hide Dynamic, DynTag, DynamicStrings, VaddrToFileOffset, ScanLimit;
  }

  lemma TableRead(l: Layout, raw: seq<byte>)
    requires Buildable(l) && Holds(raw, l)
    ensures FindSymTable(Opened(l), raw) == if TableFound(l) then Some(ScanTable(l)) else None
  {
    hide Progs, DynTable, Vaddr, StrTab, StrOff, SymOff, Total, Holds, DynTag, VaddrToFileOffset, DynamicStrings,
      Dynamic, ScanLimit, SymNames;
    DynamicRead(l, raw);
    StringsRead(l, raw);
    StrInImage(l, raw);
    SymBeforeStr(l);
    if HasSyms(l) {
      SymTagValues(l);
      AddressRoundTrip(l, SymOff(l));
      LimitOfImage(l);
      if TableFound(l) {
        TableAt(Opened(l), raw, DynTable(l), Vaddr(SymOff(l)), StrTab(l), SymOff(l));
      }
    } else {
      NoSymTags(l);
    }
  }

  lemma SymBeforeStr(l: Layout)
    ensures SymOff(l) <= StrOff(l)
  {
  }

  lemma LimitOfImage(l: Layout)
    requires Buildable(l) && SymOff(l) < Total(l)
    ensures ScanLimit(Progs(l), Vaddr(SymOff(l))) == Min(Total(l) - SymOff(l), MAX_LIMIT)
  {
    hide Progs;
    AddressRoundTrip(l, SymOff(l));
    ProgsAddressable(l);
    LimitIsSegmentRoom(Progs(l), Vaddr(SymOff(l)));
    VaddrIsSum(SymOff(l));
  }

  lemma VaddrIsSum(off: nat)
    requires BASE_VADDR + off < TWO_TO_64
    ensures Vaddr(off) == BASE_VADDR + off
  {
  }

  // ---- The scan over a generated image -----------------------------------

  /** How many 24-byte records fit under the scan limit. */
  const MAX_RECORDS := 699050

  /** The part of the padded string table that lies below the scan limit: the scan runs on
      into it because the dynamic section does not record the number of symbols. */
  function Beyond(l: Layout): seq<byte> {
    BelowLimit(Pad8(StrTab(l)), |SymNames(l)|)
  }

  /** The names misread from string-table bytes. */
  function Strays(l: Layout): seq<GoString> {
    NamesOf(Decoded(Beyond(l)), StrTab(l))
  }

  lemma SymTableConcat(a: seq<SymRecord>, b: seq<SymRecord>)
    ensures SymTableBytes(a + b) == SymTableBytes(a) + SymTableBytes(b)
  {
    if a == [] {
      assert a + b == b;
    } else {
      assert (a + b)[1..] == a[1..] + b;
      SymTableConcat(a[1..], b);
    }
  }

  lemma ManySymbols(syms: seq<SymRecord>, padded: seq<byte>)
    requires |syms| > MAX_RECORDS
    ensures MAX_LIMIT <= |SymTableBytes(syms) + padded|
    ensures Decoded((SymTableBytes(syms) + padded)[..MAX_LIMIT]) == syms[..MAX_RECORDS]
  {
    hide SymTableBytes;
    var first, rest := syms[..MAX_RECORDS], syms[MAX_RECORDS..];
    assert syms == first + rest;
    SymTableConcat(first, rest);
    var cut := (SymTableBytes(rest) + padded)[..16];
    assert (SymTableBytes(first) + SymTableBytes(rest) + padded)[..MAX_LIMIT] == SymTableBytes(first) + cut;
    DecodedSyms(first, cut);
    assert Decoded(cut) == [];
  }

  lemma FewSymbols(syms: seq<SymRecord>, padded: seq<byte>, limit: nat)
    requires SYM_SIZE * |syms| <= limit <= SYM_SIZE * |syms| + |padded|
    ensures Decoded((SymTableBytes(syms) + padded)[..limit]) == syms + Decoded(padded[..limit - SYM_SIZE * |syms|])
  {
    hide SymTableBytes, Decoded;
    var beyond := padded[..limit - SYM_SIZE * |syms|];
    assert (SymTableBytes(syms) + padded)[..limit] == SymTableBytes(syms) + beyond;
    DecodedSyms(syms, beyond);
  }

  /** The first elements that the scan can reach. */
  function UnderLimit<T>(s: seq<T>): seq<T> {
    s[..Min(|s|, MAX_RECORDS)]
  }

  /** The string-table bytes below the limit, for `n` symbols. */
  function BelowLimit(padded: seq<byte>, n: nat): seq<byte> {
    if SYM_SIZE * n >= MAX_LIMIT then [] else padded[..Min(|padded|, MAX_LIMIT - SYM_SIZE * n)]
  }

  lemma NothingDecoded()
    ensures Decoded([]) == []
  {
  }

  /** The records under the limit: the written ones, then what the string table looks like. */
  lemma RecordsUnderLimit(syms: seq<SymRecord>, padded: seq<byte>, limit: nat)
    requires limit == Min(SYM_SIZE * |syms| + |padded|, MAX_LIMIT)
    ensures Decoded((SymTableBytes(syms) + padded)[..limit]) ==
            UnderLimit(syms) + Decoded(BelowLimit(padded, |syms|))
  {
    hide SymTableBytes, Decoded, BelowLimit, UnderLimit;
    LimitParts(syms, padded, limit);
    if |syms| > MAX_RECORDS {
      ManySymbols(syms, padded);
      NothingDecoded();
      assert UnderLimit(syms) + [] == UnderLimit(syms);
    } else {
      FewSymbols(syms, padded, limit);
    }
  }

  lemma LimitParts(syms: seq<SymRecord>, padded: seq<byte>, limit: nat)
    requires limit == Min(SYM_SIZE * |syms| + |padded|, MAX_LIMIT)
    ensures |syms| > MAX_RECORDS ==>
              limit == MAX_LIMIT && UnderLimit(syms) == syms[..MAX_RECORDS] && BelowLimit(padded, |syms|) == []
    ensures |syms| <= MAX_RECORDS ==>
              && UnderLimit(syms) == syms
              && SYM_SIZE * |syms| <= limit <= SYM_SIZE * |syms| + |padded|
              && BelowLimit(padded, |syms|) == padded[..limit - SYM_SIZE * |syms|]
  {
  }

  lemma {:induction false} SlotsPrefix(placed: seq<GoString>, added: seq<GoString>, info: byte, k: nat)
    requires k <= |added|
    ensures Slots(placed, added, info)[..k] == Slots(placed, added[..k], info)
    decreases |added|
  {
    if k == |added| {
      assert added[..k] == added;
    } else {
      var before := added[..|added| - 1];
      assert before[..k] == added[..k];
      SlotsPrefix(placed, before, info, k);
    }
  }

  /** The names of the first `k` written records. */
  lemma FirstSymsName(l: Layout, k: nat)
    requires k <= |SymNames(l)| && |StrTab(l)| <= MAX_STRSZ
    ensures NamesOf(Syms(l)[..k], StrTab(l)) == Visible(l.dynSyms[..Min(k, |l.dynSyms|)])
  {
    hide NamesOf, Slots, Visible, Packed, StrTab;
    NamesPrefix(l);
    var funcs, objects := l.dynSyms, l.objectSyms;
    var f, o := Slots([], funcs, FUNC_INFO), Slots(funcs, objects, OBJECT_INFO);
    if k <= |funcs| {
      assert (f + o)[..k] == f[..k];
      SlotsPrefix([], funcs, FUNC_INFO, k);
      assert funcs == funcs[..k] + funcs[k..];
      assert SymNames(l) == funcs[..k] + (funcs[k..] + objects);
      PackedPrefix(funcs[..k], funcs[k..] + objects);
      assert [] + funcs[..k] == funcs[..k];
      SlotsName([], funcs[..k], FUNC_INFO, StrTab(l));
    } else {
      var objects' := objects[..k - |funcs|];
      assert (f + o)[..k] == f + o[..k - |funcs|];
      SlotsPrefix(funcs, objects, OBJECT_INFO, k - |funcs|);
      assert SymNames(l) == (funcs + objects') + objects[k - |funcs|..];
      PackedPrefix(funcs + objects', objects[k - |funcs|..]);
      TwoTablesName(funcs, objects', StrTab(l));
      assert funcs[..|funcs|] == funcs;
    }
  }

  /** What the program-header scan finds in a generated image. */
  function FoundNames(l: Layout): seq<GoString> {
    if TableFound(l) then Visible(UnderLimit(l.dynSyms)) + Strays(l) else []
  }

  lemma TailInImage(l: Layout, raw: seq<byte>)
    requires Holds(raw, l)
    ensures raw[SymOff(l)..] == SymTableBytes(Syms(l)) + Pad8(StrTab(l))
    ensures Total(l) - SymOff(l) == SYM_SIZE * |Syms(l)| + |Pad8(StrTab(l))| && Total(l) == |raw|
  {
  }

  lemma ScanReads(l: Layout, raw: seq<byte>, t: SymTable)
    requires Buildable(l) && Holds(raw, l) && t == ScanTable(l)
    ensures RecordsFrom(Elf64, LittleEndian, raw, t, 0) == UnderLimit(Syms(l)) + Decoded(Beyond(l))
  {
    TableFits(l, raw, t);
    SymCounts(l);
    hide Syms, StrTab, Pad8, SymNames, SymTableBytes, RecordsFrom, BelowLimit, UnderLimit, Decoded, Holds, Buildable,
      ScanTable;
    TailScanned(raw, Syms(l), Pad8(StrTab(l)), t);
  }

  lemma TableFits(l: Layout, raw: seq<byte>, t: SymTable)
    requires Buildable(l) && Holds(raw, l) && t == ScanTable(l)
    ensures 0 <= t.at <= |raw| < TWO_TO_63 && t.syment == SYM_SIZE
    ensures raw[t.at..] == SymTableBytes(Syms(l)) + Pad8(StrTab(l)) && t.limit == Min(|raw| - t.at, MAX_LIMIT)
  {
    TailInImage(l, raw);
    hide Syms, StrTab, Pad8, SymTableBytes, Holds, SymNames, HeaderLen, InterpBytes, DynCount;
  }

  lemma TailScanned(raw: seq<byte>, syms: seq<SymRecord>, padded: seq<byte>, t: SymTable)
    requires 0 <= t.at <= |raw| < TWO_TO_63 && t.syment == SYM_SIZE
    requires raw[t.at..] == SymTableBytes(syms) + padded && t.limit == Min(|raw| - t.at, MAX_LIMIT)
    ensures RecordsFrom(Elf64, LittleEndian, raw, t, 0) == UnderLimit(syms) + Decoded(BelowLimit(padded, |syms|))
  {
    hide RecordsFrom, Decoded, SymTableBytes, BelowLimit, UnderLimit;
    ScanDecodes(raw, t, 0);
    assert raw[t.at + 0..t.at + t.limit] == raw[t.at..][..t.limit];
    RecordsUnderLimit(syms, padded, t.limit);
  }

  lemma SymCounts(l: Layout)
    ensures |l.dynSyms| <= |Syms(l)| == |SymNames(l)|
  {
  }

  lemma NamesRead(l: Layout, raw: seq<byte>)
    requires Buildable(l) && Holds(raw, l)
    ensures Scannable(Opened(l), raw)
    ensures SymbolNamesPH(Opened(l), raw) == FoundNames(l)
  {
    hide Holds, Syms, StrTab, Total, SymOff, SymNames, RecordsFrom, NamesOf, FindSymTable, Decoded, Beyond, Visible;
    TableRead(l, raw);
    if TableFound(l) {
      SymCounts(l);
      ScanReads(l, raw, ScanTable(l));
      var k := Min(|Syms(l)|, MAX_RECORDS);
      FirstSymsName(l, k);
      NamesOfConcat(Syms(l)[..k], Decoded(Beyond(l)), StrTab(l));
      assert Min(k, |l.dynSyms|) == Min(|l.dynSyms|, MAX_RECORDS);
    }
  }

  /** Reading the symbols of an image gives the stored function names, up to the scan limit,
      followed by whatever the string table yields when misread as symbols. */
  lemma SymbolNamesExact(l: Layout)
    requires Buildable(l)
    ensures Scannable(Opened(l), Image(l))
    ensures SymbolNamesPH(Opened(l), Image(l)) == FoundNames(l)
  {
    hide FoundNames, Opened, Scannable;
    ImageHolds(l);
    NamesRead(l, Image(l));
  }
}
