/** Dynamic entries, strings and symbols recovered from the program headers alone. */
module Dyn {
  import opened Bytes
  import opened Elf

  // ---- PT_DYNAMIC --------------------------------------------------------

  /** Bytes in half an entry: one tag or one value. */
  function HalfEntry(cls: Class): (h: nat)
    ensures h == 4 || h == 8
  {
    if cls.Elf64? then 8 else 4
  }

  function EntryAt(data: seq<byte>, at: nat, cls: Class, order: ByteOrder): DynEntry
    requires at + 2 * HalfEntry(cls) <= |data|
  {
    Pow256Values();
    var h := HalfEntry(cls);
    DynEntry(Get(order, data[at..at + h]), Get(order, data[at + h..at + 2 * h]))
  }

  /** The entries up to the first DT_NULL; a truncated last entry is ignored. */
  function DynEntries(data: seq<byte>, cls: Class, order: ByteOrder): (es: seq<DynEntry>)
  {
    if |data| < 2 * HalfEntry(cls) then []
    else
      var e := EntryAt(data, 0, cls, order);
      if e.tag == DT_NULL then []
      else [e] + DynEntries(data[2 * HalfEntry(cls)..], cls, order)
  }

  /** `out` are the entries before `at`. */
  ghost predicate ParsedSoFar(data: seq<byte>, cls: Class, order: ByteOrder, at: nat, out: seq<DynEntry>)
    requires at <= |data|
  {
    out + DynEntries(data[at..], cls, order) == DynEntries(data, cls, order)
  }

  lemma EntryParsed(data: seq<byte>, cls: Class, order: ByteOrder, at: nat, out: seq<DynEntry>)
    requires at + 2 * HalfEntry(cls) <= |data| && EntryAt(data, at, cls, order).tag != DT_NULL
    requires ParsedSoFar(data, cls, order, at, out)
    ensures ParsedSoFar(data, cls, order, at + 2 * HalfEntry(cls), out + [EntryAt(data, at, cls, order)])
  {
    hide EntryAt, HalfEntry;
    EntryShift(data, at, cls, order);
    var e, w := EntryAt(data, at, cls, order), 2 * HalfEntry(cls);
    assert data[at..][w..] == data[at + w..];
    var rest := DynEntries(data[at + w..], cls, order);
    assert out + ([e] + rest) == (out + [e]) + rest;
  }

  lemma ParseStops(data: seq<byte>, cls: Class, order: ByteOrder, at: nat, out: seq<DynEntry>)
    requires at <= |data| && ParsedSoFar(data, cls, order, at, out)
    requires at + 2 * HalfEntry(cls) > |data| || EntryAt(data, at, cls, order).tag == DT_NULL
    ensures out == DynEntries(data, cls, order)
  {
    hide EntryAt, HalfEntry;
    if at + 2 * HalfEntry(cls) <= |data| {
      EntryShift(data, at, cls, order);
    }
    assert out + [] == out;
  }

  method ParseDynEntries(data: seq<byte>, cls: Class, order: ByteOrder) returns (out: seq<DynEntry>)
    ensures out == DynEntries(data, cls, order)
  {
    out := [];
    var i := 0;
    assert ParsedSoFar(data, cls, order, 0, []) by {
      assert data[0..] == data;
    }
    hide EntryAt, ParsedSoFar, DynEntries;
    if cls.Elf64? {
      while i + 16 <= |data|
        invariant 0 <= i <= |data|
        invariant ParsedSoFar(data, cls, order, i, out)
      {
        var e := EntryAt(data, i, cls, order);
        if e.tag == DT_NULL {
          ParseStops(data, cls, order, i, out);
          return;
        }
        EntryParsed(data, cls, order, i, out);
        out := out + [e];
        i := i + 16;
      }
    } else {
      while i + 8 <= |data|
        invariant 0 <= i <= |data|
        invariant ParsedSoFar(data, cls, order, i, out)
      {
        var e := EntryAt(data, i, cls, order);
        if e.tag == DT_NULL {
          ParseStops(data, cls, order, i, out);
          return;
        }
        EntryParsed(data, cls, order, i, out);
        out := out + [e];
        i := i + 8;
      }
    }
    ParseStops(data, cls, order, i, out);
  }

  lemma EntryShift(data: seq<byte>, at: nat, cls: Class, order: ByteOrder)
    requires at + 2 * HalfEntry(cls) <= |data|
    ensures EntryAt(data[at..], 0, cls, order) == EntryAt(data, at, cls, order)
  {
    var h := HalfEntry(cls);
    assert data[at..][0..h] == data[at..at + h];
    assert data[at..][h..2 * h] == data[at + h..at + 2 * h];
  }

  /** The entries of every PT_DYNAMIC segment, in program-header order. */
  function PtDynamic(progs: seq<Prog>, cls: Class, order: ByteOrder, raw: seq<byte>): seq<DynEntry>
  {
    if progs == [] then []
    else
      var rest := PtDynamic(progs[1..], cls, order, raw);
      if progs[0].typ != PT_DYNAMIC then rest
      else
        var r := ReadSegment(raw, progs[0]);
        if r.status.Invalid? then rest else DynEntries(r.data, cls, order) + rest
  }

  function Dynamic(f: ElfFile, raw: seq<byte>): seq<DynEntry> {
    PtDynamic(f.progs, f.cls, f.order, raw)
  }

  method ParsePTDynamic(f: ElfFile, raw: seq<byte>) returns (out: seq<DynEntry>)
    ensures out == Dynamic(f, raw)
  {
    hide ReadAt, DynEntries;
    out := [];
    for i := 0 to |f.progs|
      invariant out + PtDynamic(f.progs[i..], f.cls, f.order, raw) == Dynamic(f, raw)
    {
      var p := f.progs[i];
      assert f.progs[i..][1..] == f.progs[i + 1..];
      if p.typ != PT_DYNAMIC {
        continue;
      }
      var r := ReadSegment(raw, p);
      if r.status.Invalid? {
        continue;
      }
      var entries := ParseDynEntries(r.data, f.cls, f.order);
      out := out + entries;
    }
  }

  /** The value of the first entry carrying `tag`. */
  function DynTag(dyns: seq<DynEntry>, tag: u64): (v: Option<u64>)
    ensures v.Some? <==> exists i :: 0 <= i < |dyns| && dyns[i].tag == tag
    ensures v.Some? ==> DynEntry(tag, v.value) in dyns
  {
    if dyns == [] then None
    else if dyns[0].tag == tag then Some(dyns[0].val)
    else
      var rest := DynTag(dyns[1..], tag);
      assert rest.Some? ==> exists i :: 0 <= i < |dyns[1..]| && dyns[1..][i].tag == tag;
      assert forall i :: 0 < i < |dyns| ==> dyns[i] == dyns[1..][i - 1];
      rest
  }

  // ---- Address translation -----------------------------------------------

  /** The unsigned 64-bit cover test of one segment. */
  predicate Covers(p: Prog, vaddr: u64) {
    vaddr >= p.vaddr && vaddr < (p.vaddr + p.filesz) % TWO_TO_64
  }

  /** The first PT_LOAD segment covering `vaddr`. */
  function CoveringLoad(progs: seq<Prog>, vaddr: u64): (p: Option<Prog>)
    ensures p.Some? ==> p.value in progs && p.value.typ == PT_LOAD && Covers(p.value, vaddr)
    ensures p.None? ==> forall q :: q in progs && q.typ == PT_LOAD ==> !Covers(q, vaddr)
  {
    if progs == [] then None
    else if progs[0].typ == PT_LOAD && Covers(progs[0], vaddr) then Some(progs[0])
    else CoveringLoad(progs[1..], vaddr)
  }

  function VaddrToFileOffset(progs: seq<Prog>, vaddr: u64): (off: Option<int>)
  {
    match CoveringLoad(progs, vaddr)
    case None => None
    case Some(p) => Some(ToI64((vaddr - p.vaddr + p.off) % TWO_TO_64))
  }

  // ---- Strings -----------------------------------------------------------

  function IndexOfZero(b: seq<byte>): (i: nat)
    ensures i <= |b|
    ensures forall k :: 0 <= k < i ==> b[k] != 0
    ensures i < |b| ==> b[i] == 0
  {
    if b == [] || b[0] == 0 then 0 else 1 + IndexOfZero(b[1..])
  }

  /** The string at `off`: up to the first zero byte, or to the end of the table. */
  function CstrAt(str: seq<byte>, off: u64): Option<GoString> {
    if off >= |str| then None
    else Some(Text(str[off..off + IndexOfZero(str[off..])]))
  }

  const MAX_STRSZ := 0x100_0000

  function DynamicStrings(progs: seq<Prog>, raw: seq<byte>, dyns: seq<DynEntry>): Option<seq<byte>> {
    match (DynTag(dyns, DT_STRTAB), DynTag(dyns, DT_STRSZ))
    case (Some(strtab), Some(strsz)) =>
      if strsz == 0 || strsz > MAX_STRSZ then None
      else
        (match VaddrToFileOffset(progs, strtab)
         case None => None
         case Some(off) =>
           var r := ReadAt(raw, off, strsz);
           if r.status.Invalid? then None else Some(r.data))
    case (_, _) => None
  }

  /** The strings of all entries carrying `tag`, in order. */
  function StringsOf(str: seq<byte>, dyns: seq<DynEntry>, tag: u64): seq<GoString> {
    if dyns == [] then []
    else
      var rest := StringsOf(str, dyns[1..], tag);
      if dyns[0].tag != tag then rest
      else
        match CstrAt(str, dyns[0].val)
        case Some(s) => [s] + rest
        case None => rest
  }

  function DynStringsPH(f: ElfFile, raw: seq<byte>, tag: u64): seq<GoString> {
    var dyns := Dynamic(f, raw);
    match DynamicStrings(f.progs, raw, dyns)
    case None => []
    case Some(str) => StringsOf(str, dyns, tag)
  }

  method DynStringPH(f: ElfFile, raw: seq<byte>, dyns: seq<DynEntry>, tag: u64) returns (out: seq<GoString>)
    requires dyns == Dynamic(f, raw)
    ensures out == DynStringsPH(f, raw, tag)
  {
    out := [];
    var table := DynamicStrings(f.progs, raw, dyns);
    if table.None? {
      return;
    }
    var str := table.value;
    for i := 0 to |dyns|
      invariant out + StringsOf(str, dyns[i..], tag) == StringsOf(str, dyns, tag)
    {
      assert dyns[i..][1..] == dyns[i + 1..];
      if dyns[i].tag != tag {
        continue;
      }
      var s := CstrAt(str, dyns[i].val);
      if s.Some? {
        out := out + [s.value];
      }
    }
  }

  // ---- Symbols -----------------------------------------------------------

  const SYM_BUF := 24

  /** The two fields of a symbol record that the scan looks at. */
  datatype SymRecord = SymRecord(nameOff: u32, info: byte)

  function DecodeSym(buf: seq<byte>, cls: Class, order: ByteOrder): SymRecord
    requires |buf| == SYM_BUF
  {
    Pow256Values();
    SymRecord(Get(order, buf[0..4]), if cls.Elf64? then buf[4] else buf[12])
  }

  /** The name a symbol record contributes: one string for a resolvable named function,
      nothing otherwise. */
  function RecordName(rec: SymRecord, str: seq<byte>): (names: seq<GoString>)
    ensures |names| <= 1
    ensures forall n :: n in names ==> n != ""
  {
    if rec.info % 16 != STT_FUNC then []
    else
      match CstrAt(str, rec.nameOff)
      case None => []
      case Some(s) => if s == "" then [] else [s]
  }

  /** A symbol table located through the dynamic section. `limit` bounds its size. */
  datatype SymTable = SymTable(str: seq<byte>, at: int, syment: u64, limit: nat)

  function DefaultSyment(cls: Class): nat {
    if cls.Elf32? then 16 else 24
  }

  function Syment(cls: Class, dyns: seq<DynEntry>): u64 {
    match DynTag(dyns, DT_SYMENT)
    case Some(v) => if v == 0 then DefaultSyment(cls) else v
    case None => DefaultSyment(cls)
  }

  const FALLBACK_LIMIT := 0x10_0000
  const MAX_LIMIT := 0x100_0000

  /** The signed distance from `symtab` to the end of its segment, as the limit loop computes it. */
  function SegmentRoom(progs: seq<Prog>, symtab: u64): int {
    match CoveringLoad(progs, symtab)
    case None => 0
    case Some(p) => ToI64((p.vaddr + p.filesz - symtab) % TWO_TO_64)
  }

  function ScanLimit(progs: seq<Prog>, symtab: u64): (limit: nat)
    ensures 0 < limit <= MAX_LIMIT
  {
    var room := SegmentRoom(progs, symtab);
    if room <= 0 then FALLBACK_LIMIT else if room > MAX_LIMIT then MAX_LIMIT else room
  }

  function FindSymTable(f: ElfFile, raw: seq<byte>): Option<SymTable> {
    var dyns := Dynamic(f, raw);
    match (DynTag(dyns, DT_SYMTAB), DynamicStrings(f.progs, raw, dyns))
    case (Some(symtab), Some(str)) =>
      (match VaddrToFileOffset(f.progs, symtab)
       case None => None
       case Some(at) => Some(SymTable(str, at, Syment(f.cls, dyns), ScanLimit(f.progs, symtab))))
    case (_, _) => None
  }

  /** Entry sizes that fit a signed 64-bit integer. A larger DT_SYMENT makes the scan slice
      its buffer with a negative bound, which stops the program. */
  predicate Scannable(f: ElfFile, raw: seq<byte>) {
    var t := FindSymTable(f, raw);
    t.Some? ==> 0 < t.value.syment < TWO_TO_63
  }

  function Min(a: nat, b: nat): nat {
    if a < b then a else b
  }

  /** The record at `off`, decoded from a zeroed 24-byte buffer, if it can be read. */
  function RecordAt(cls: Class, order: ByteOrder, raw: seq<byte>, t: SymTable, off: nat): (rec: Option<SymRecord>)
  {
    var n := Min(t.syment, SYM_BUF);
    var r := ReadAt(raw, WrapI64(t.at + off), n);
    if r.status.Full? then Some(DecodeSym(r.data + Zeros(SYM_BUF - n), cls, order)) else None
  }

  /** A sum of two int64 values, wrapped as Go does. */
  function WrapI64(v: int): (w: int)
    ensures -TWO_TO_63 <= v < TWO_TO_63 ==> w == v
  {
    if -TWO_TO_63 <= v < TWO_TO_63 then v else ToI64(v % TWO_TO_64)
  }

  /** The records the scan reads from `off` on; it stops at the first failed read. */
  function RecordsFrom(cls: Class, order: ByteOrder, raw: seq<byte>, t: SymTable, off: nat): (recs: seq<SymRecord>)
    requires t.syment > 0
    decreases t.limit + t.syment - off
  {
    if off + t.syment > t.limit then []
    else
      match RecordAt(cls, order, raw, t, off)
      case None => []
      case Some(rec) => [rec] + RecordsFrom(cls, order, raw, t, off + t.syment)
  }

  /** The names of the resolvable, named function symbols among `recs`, in order. */
  function NamesOf(recs: seq<SymRecord>, str: seq<byte>): (names: seq<GoString>)
  {
    if recs == [] then []
    else NamesOf(recs[..|recs| - 1], str) + RecordName(recs[|recs| - 1], str)
  }

  function SymbolNamesPH(f: ElfFile, raw: seq<byte>): seq<GoString>
    requires Scannable(f, raw)
  {
    match FindSymTable(f, raw)
    case None => []
    case Some(t) => NamesOf(RecordsFrom(f.cls, f.order, raw, t, 0), t.str)
  }

  method PhdrSymbolNames(f: ElfFile, raw: seq<byte>) returns (names: seq<GoString>)
    requires Scannable(f, raw)
    ensures names == SymbolNamesPH(f, raw)
  {
    names := [];
    var dyns := ParsePTDynamic(f, raw);
    var symtab := DynTag(dyns, DT_SYMTAB);
    if symtab.None? {
      return;
    }
    var str := DynamicStrings(f.progs, raw, dyns);
    if str.None? {
      return;
    }
    var entry := DynTag(dyns, DT_SYMENT);
    var syment: u64;
    if entry.None? || entry.value == 0 {
      syment := if f.cls.Elf32? then 16 else 24;
    } else {
      syment := entry.value;
    }
    var symOff := VaddrToFileOffset(f.progs, symtab.value);
    if symOff.None? {
      return;
    }

    var limit := SegmentLimit(f.progs, symtab.value);
    var t := SymTable(str.value, symOff.value, syment, limit);
    assert FindSymTable(f, raw) == Some(t);
    names := ScanSymbols(f.cls, f.order, raw, t);
  }

  /** The scan loop of PhdrSymbolNames. */
  method ScanSymbols(cls: Class, order: ByteOrder, raw: seq<byte>, t: SymTable) returns (names: seq<GoString>)
    requires 0 < t.syment < TWO_TO_63
    requires t.limit <= MAX_LIMIT
    ensures names == NamesOf(RecordsFrom(cls, order, raw, t, 0), t.str)
  {
    names := [];
    var off := 0;
    ghost var recs: seq<SymRecord> := [];
    assert ReadSoFar(cls, order, raw, t, 0, []);
    assert NamesOf([], t.str) == [];
    hide ReadSoFar, RecordsFrom, RecordAt, NamesOf, RecordName, ToI64;
    while WrapI64(off + t.syment) <= t.limit
      invariant 0 <= off <= t.limit
      invariant off > 0 ==> t.syment <= t.limit  // so the int64 sum never wraps
      invariant ReadSoFar(cls, order, raw, t, off, recs)
      invariant names == NamesOf(recs, t.str)
      decreases t.limit - off
    {
      assert WrapI64(off + t.syment) == off + t.syment;
      var rec := ReadRecord(cls, order, raw, t, off);
      if rec.None? {
        ScanStops(cls, order, raw, t, off, recs);
        return;
      }
      RecordsStep(cls, order, raw, t, off, recs, rec.value);
      NamesOfAppend(recs, rec.value, t.str);
      names := names + RecordName(rec.value, t.str);
      recs := recs + [rec.value];
      off := WrapI64(off + t.syment);
    }
    ScanStops(cls, order, raw, t, off, recs);
  }

  /** `recs` are the records before `off`. */
  ghost predicate ReadSoFar(cls: Class, order: ByteOrder, raw: seq<byte>, t: SymTable, off: nat, recs: seq<SymRecord>)
    requires t.syment > 0
  {
    recs + RecordsFrom(cls, order, raw, t, off) == RecordsFrom(cls, order, raw, t, 0)
  }

  lemma ScanStops(cls: Class, order: ByteOrder, raw: seq<byte>, t: SymTable, off: nat, recs: seq<SymRecord>)
    requires t.syment > 0 && ReadSoFar(cls, order, raw, t, off, recs)
    requires off + t.syment > t.limit || RecordAt(cls, order, raw, t, off) == None
    ensures recs == RecordsFrom(cls, order, raw, t, 0)
  {
    hide RecordAt;
    assert RecordsFrom(cls, order, raw, t, off) == [];
    assert recs + [] == recs;
  }

  lemma RecordsStep(cls: Class, order: ByteOrder, raw: seq<byte>, t: SymTable, off: nat,
                    recs: seq<SymRecord>, rec: SymRecord)
    requires t.syment > 0 && off + t.syment <= t.limit
    requires RecordAt(cls, order, raw, t, off) == Some(rec)
    requires ReadSoFar(cls, order, raw, t, off, recs)
    ensures ReadSoFar(cls, order, raw, t, off + t.syment, recs + [rec])
  {
    var next := RecordsFrom(cls, order, raw, t, off + t.syment);
    assert recs + ([rec] + next) == (recs + [rec]) + next;
  }

  /** Fills a zeroed 24-byte buffer with the entry at `off` and decodes it. */
  method ReadRecord(cls: Class, order: ByteOrder, raw: seq<byte>, t: SymTable, off: nat)
    returns (rec: Option<SymRecord>)
    ensures rec == RecordAt(cls, order, raw, t, off)
  {
    var n := t.syment;
    if n > SYM_BUF {
      n := SYM_BUF;
    }
    var r := ReadAt(raw, WrapI64(t.at + off), n);
    if !r.status.Full? {
      return None;
    }
    return Some(DecodeSym(r.data + Zeros(SYM_BUF - n), cls, order));
  }

  lemma NamesOfAppend(recs: seq<SymRecord>, rec: SymRecord, str: seq<byte>)
    ensures NamesOf(recs + [rec], str) == NamesOf(recs, str) + RecordName(rec, str)
  {
    assert (recs + [rec])[..|recs|] == recs;
  }

  /** The size bound on the symbol table, found by a second walk over the segments. */
  method SegmentLimit(progs: seq<Prog>, symtab: u64) returns (limit: int)
    ensures limit == ScanLimit(progs, symtab)
  {
    limit := 0;
    var i := 0;
    while i < |progs|
      invariant 0 <= i <= |progs|
      invariant CoveringLoad(progs[i..], symtab) == CoveringLoad(progs, symtab)
      invariant limit == 0
    {
      assert progs[i..][1..] == progs[i + 1..];
      var p := progs[i];
      if p.typ == PT_LOAD {
        if symtab >= p.vaddr && symtab < (p.vaddr + p.filesz) % TWO_TO_64 {
          limit := ToI64((p.vaddr + p.filesz - symtab) % TWO_TO_64);
          break;
        }
      }
      i := i + 1;
    }
    assert limit == SegmentRoom(progs, symtab);
    if limit <= 0 {
      limit := FALLBACK_LIMIT;
    }
    if limit > MAX_LIMIT {
      limit := MAX_LIMIT;
    }
  }

  // ---- All symbol names --------------------------------------------------

  function NamesOfSyms(syms: Option<seq<Sym>>): (names: seq<GoString>)
    ensures syms.Some? ==> |names| == |syms.value| && forall i :: 0 <= i < |names| ==> names[i] == syms.value[i].name
  {
    if syms.None? then [] else seq(|syms.value|, i requires 0 <= i < |syms.value| => syms.value[i].name)
  }

  /** Everything the three symbol sources list, in scan order, with repetitions. */
  function AdvertisedNames(f: ElfFile, raw: seq<byte>): seq<GoString>
    requires Scannable(f, raw)
  {
    NamesOfSyms(f.sections.symbols) + NamesOfSyms(f.sections.dynSymbols) + SymbolNamesPH(f, raw)
  }

  /** The first occurrences of the non-empty names. */
  function FirstOccurrences(names: seq<GoString>): (out: seq<GoString>) {
    if names == [] then []
    else
      var before := names[..|names| - 1];
      var n := names[|names| - 1];
      if n == "" || n in before then FirstOccurrences(before) else FirstOccurrences(before) + [n]
  }

  method AllSymbolNames(f: ElfFile, raw: seq<byte>) returns (names: seq<GoString>)
    requires Scannable(f, raw)
    ensures names == FirstOccurrences(AdvertisedNames(f, raw))
  {
    var seen: map<GoString, bool> := map[];
    names := [];
    var symbols := NamesOfSyms(f.sections.symbols);
    var dynSymbols := NamesOfSyms(f.sections.dynSymbols);
    names, seen := AddAll(symbols, names, seen, []);
    assert [] + symbols == symbols;
    names, seen := AddAll(dynSymbols, names, seen, symbols);
    var phdr := PhdrSymbolNames(f, raw);
    names, seen := AddAll(phdr, names, seen, symbols + dynSymbols);
  }

  /** Adds the names of one source to those of the sources already done. */
  method AddAll(source: seq<GoString>, names0: seq<GoString>, seen0: map<GoString, bool>, ghost done: seq<GoString>)
    returns (names: seq<GoString>, seen: map<GoString, bool>)
    requires names0 == FirstOccurrences(done) && SeenExactly(seen0, done)
    ensures names == FirstOccurrences(done + source) && SeenExactly(seen, done + source)
  {
    names, seen := names0, seen0;
    assert done + source[..0] == done;
    for j := 0 to |source|
      invariant names == FirstOccurrences(done + source[..j])
      invariant SeenExactly(seen, done + source[..j])
    {
      var n := source[j];
      ghost var before := done + source[..j];
      assert done + source[..j + 1] == before + [n];
      assert (before + [n])[..|before|] == before;
      if n != "" && n !in seen {
        seen := seen[n := true];
        names := names + [n];
      }
    }
    assert source[..|source|] == source;
  }

  ghost predicate SeenExactly(seen: map<GoString, bool>, names: seq<GoString>) {
    forall n: GoString :: n in seen <==> n in names && n != ""
  }
}
