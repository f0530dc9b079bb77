/** The image the generator writes for a layout, region by region (System V gABI, chapter 4
    "ELF Header", "String Table", "Symbol Table"; chapter 5 "Program Header", "Dynamic Section"). */
module ElfGen {
  import opened Bytes
  import opened Elf
  import opened Dyn
  import opened DynProperties

  datatype Layout = Layout(
    name: GoString,
    machine: u16,
    pie: bool,
    etDyn: bool,
    interp: bool,
    gnuStackX: bool,
    noStack: bool,
    relro: bool,
    bindNow: bool,
    flags1Pie: bool,
    flagsBind: bool,
    textRel: bool,
    flagsTextRel: bool,
    retguard: bool,
    pacIBSP: bool,
    rpath: seq<GoString>,
    runpath: seq<GoString>,
    dynSyms: seq<GoString>,
    objectSyms: seq<GoString>)

  const BASE_VADDR := 0x40_0000
  const LIBC: GoString := "libc.so.6"
  const INTERPRETER: GoString := "/lib64/ld-linux-x86-64.so.2\0"
  const PACIBSP: seq<byte> := [0x7f, 0x23, 0x03, 0xd5]

  const FUNC_INFO := 0x12
  const OBJECT_INFO := 0x11

  // ---- String table ------------------------------------------------------

  /** Adds one path entry; nothing joined so far means no colon. */
  function JoinNext(before: GoString, entry: GoString): GoString {
    if before != "" then before + ":" + entry else entry
  }

  /** The colon-joined path list. */
  function JoinedPath(entries: seq<GoString>): GoString {
    if entries == [] then "" else JoinNext(JoinedPath(entries[..|entries| - 1]), entries[|entries| - 1])
  }

  function SymNames(l: Layout): seq<GoString> {
    l.dynSyms + l.objectSyms
  }

  predicate HasSyms(l: Layout) {
    |SymNames(l)| > 0
  }

  function OneIf(present: bool, s: GoString): seq<GoString> {
    if present then [s] else []
  }

  /** Every string that gets a slot, in slot order. */
  function Names(l: Layout): seq<GoString> {
    SymNames(l) + OneIf(HasSyms(l), LIBC) + OneIf(JoinedPath(l.rpath) != "", JoinedPath(l.rpath)) +
    OneIf(JoinedPath(l.runpath) != "", JoinedPath(l.runpath))
  }

  /** A zero byte followed by the NUL-terminated names. */
  function Packed(names: seq<GoString>): (b: seq<byte>)
    ensures |b| > |names|
    ensures b[0] == 0
  {
    if names == [] then [0]
    else Packed(names[..|names| - 1]) + BytesOf(names[|names| - 1]) + [0]
  }

  lemma PackedAppend(names: seq<GoString>, n: GoString)
    ensures Packed(names + [n]) == Packed(names) + BytesOf(n) + [0]
  {
    assert (names + [n])[..|names|] == names;
  }

  /** The offset of the slot that comes after `placed`, as a 32-bit number. */
  function SlotAfter(placed: seq<GoString>): u32 {
    |Packed(placed)| % TWO_TO_32
  }

  function StrTab(l: Layout): (b: seq<byte>)
    ensures |b| > |Names(l)|
  {
    Packed(Names(l)) + if l.pacIBSP then PACIBSP else []
  }

  function NeededSlot(l: Layout): u32 {
    SlotAfter(SymNames(l))
  }

  function RpathSlot(l: Layout): u32 {
    SlotAfter(SymNames(l) + OneIf(HasSyms(l), LIBC))
  }

  function RunpathSlot(l: Layout): u32 {
    SlotAfter(SymNames(l) + OneIf(HasSyms(l), LIBC) + OneIf(JoinedPath(l.rpath) != "", JoinedPath(l.rpath)))
  }

  // ---- Symbol table ------------------------------------------------------

  /** One record per added name, each naming the slot the name gets after `placed`. */
  function Slots(placed: seq<GoString>, added: seq<GoString>, info: byte): (syms: seq<SymRecord>)
    ensures |syms| == |added|
  {
    if added == [] then []
    else
      var before := added[..|added| - 1];
      Slots(placed, before, info) + [SymRecord(SlotAfter(placed + before), info)]
  }

  function Syms(l: Layout): (syms: seq<SymRecord>)
    ensures |syms| == |SymNames(l)|
  {
    Slots([], l.dynSyms, FUNC_INFO) + Slots(l.dynSyms, l.objectSyms, OBJECT_INFO)
  }

  const SYM_SIZE := 24

  function SymBytes(s: SymRecord): (b: seq<byte>)
    ensures |b| == SYM_SIZE
  {
    Le(4, s.nameOff) + [s.info] + Zeros(19)
  }

  function SymTableBytes(syms: seq<SymRecord>): (b: seq<byte>)
    ensures |b| == SYM_SIZE * |syms|
  {
    if syms == [] then [] else SymBytes(syms[0]) + SymTableBytes(syms[1..])
  }

  // ---- Dynamic section ---------------------------------------------------

  predicate HasDyn(l: Layout) {
    HasSyms(l) || l.bindNow || l.flags1Pie || l.flagsBind || l.textRel || l.flagsTextRel ||
    JoinedPath(l.rpath) != "" || JoinedPath(l.runpath) != ""
  }

  function EntryIf(present: bool, tag: u64, val: u64): seq<DynEntry> {
    if present then [DynEntry(tag, val)] else []
  }

  function FlagsValue(l: Layout): nat {
    (if l.flagsBind then DF_BIND_NOW else 0) + (if l.flagsTextRel then DF_TEXTREL else 0)
  }

  function FlagEntries(l: Layout): seq<DynEntry> {
    EntryIf(l.bindNow, DT_BIND_NOW, 0) + EntryIf(l.textRel, DT_TEXTREL, 0) +
    EntryIf(FlagsValue(l) != 0, DT_FLAGS, FlagsValue(l)) + EntryIf(l.flags1Pie, DT_FLAGS_1, DF_1_PIE)
  }

  /** The five symbol entries around the values that are patched in last. */
  function SymEntries(present: bool, needed: u64, symtab: u64, strtab: u64, strsz: u64): seq<DynEntry> {
    if present then
      [DynEntry(DT_NEEDED, needed), DynEntry(DT_SYMTAB, symtab), DynEntry(DT_STRTAB, strtab),
       DynEntry(DT_STRSZ, strsz), DynEntry(DT_SYMENT, SYM_SIZE)]
    else []
  }

  function PathEntries(l: Layout, rpath: u64, runpath: u64): seq<DynEntry> {
    EntryIf(JoinedPath(l.rpath) != "", DT_RPATH, rpath) + EntryIf(JoinedPath(l.runpath) != "", DT_RUNPATH, runpath)
  }

  /** The entries before their addresses and string offsets are known, without DT_NULL. */
  function Template(l: Layout): seq<DynEntry> {
    SymEntries(HasSyms(l), 0, 0, 0, 0) + PathEntries(l, 0, 0) + FlagEntries(l)
  }

  const NULL_ENTRY := DynEntry(DT_NULL, 0)

  function DynCount(l: Layout): nat {
    if HasDyn(l) then |Template(l)| + 1 else 0
  }

  // ---- Placement ---------------------------------------------------------

  predicate HasInterp(l: Layout) {
    l.interp || l.pie
  }

  function PhdrCount(l: Layout): nat {
    1 + (if HasInterp(l) then 1 else 0) + (if HasDyn(l) then 1 else 0) + (if l.relro then 1 else 0) +
    (if l.retguard then 1 else 0) + (if l.noStack then 0 else 1)
  }

  function HeaderLen(l: Layout): nat {
    EHDR_SIZE + PHDR_SIZE * PhdrCount(l)
  }

  function InterpBytes(l: Layout): seq<byte> {
    if HasInterp(l) then BytesOf(INTERPRETER) else []
  }

  function DynOff(l: Layout): nat {
    HeaderLen(l) + Align8(|InterpBytes(l)|)
  }

  function SymOff(l: Layout): nat {
    DynOff(l) + 16 * DynCount(l)
  }

  function StrOff(l: Layout): nat {
    SymOff(l) + SYM_SIZE * |SymNames(l)|
  }

  function Total(l: Layout): nat {
    StrOff(l) + Align8(|StrTab(l)|)
  }

  function Vaddr(off: nat): u64 {
    (BASE_VADDR + off) % TWO_TO_64
  }

  /** The dynamic entries as written, without DT_NULL. */
  function DynTable(l: Layout): seq<DynEntry> {
    SymEntries(HasSyms(l), NeededSlot(l), Vaddr(SymOff(l)), Vaddr(StrOff(l)), U64(|StrTab(l)|)) +
    PathEntries(l, RpathSlot(l), RunpathSlot(l)) +
    FlagEntries(l)
  }

  function DynBytes(l: Layout): seq<byte> {
    if HasDyn(l) then EntriesBytes(DynTable(l) + [NULL_ENTRY], Elf64, LittleEndian) else []
  }

  // ---- Headers -----------------------------------------------------------

  function ProgIf(present: bool, p: Prog): seq<Prog> {
    if present then [p] else []
  }

  function U64(v: nat): u64 {
    v % TWO_TO_64
  }

  /** A segment header as the generator writes it: the file size is also the memory size. */
  function Segment(typ: u32, flags: u32, off: nat, vaddr: u64, size: nat): Prog {
    Prog(typ, flags, U64(off), vaddr, U64(size), U64(size))
  }

  function StackFlags(l: Layout): u32 {
    if l.gnuStackX then PF_R + PF_W + PF_X else PF_R + PF_W
  }

  /** The header-only segments. */
  function MarkerList(l: Layout, total: nat): seq<Prog> {
    ProgIf(l.relro, Segment(PT_GNU_RELRO, PF_R, 0, BASE_VADDR, total)) +
    ProgIf(l.retguard, Segment(PT_OHOS_RETGUARD, PF_R, 0, BASE_VADDR, 0)) +
    ProgIf(!l.noStack, Segment(PT_GNU_STACK, StackFlags(l), 0, 0, 0))
  }

  /** The segments, given where the interpreter and the dynamic section are and the image size. */
  function ProgList(l: Layout, interpOff: nat, interpLen: nat, dynOff: nat, dynLen: nat, total: nat): seq<Prog> {
    [Segment(PT_LOAD, PF_R + PF_X, 0, BASE_VADDR, total)] +
    ProgIf(interpLen > 0, Segment(PT_INTERP, PF_R, interpOff, Vaddr(interpOff), interpLen)) +
    ProgIf(dynLen > 0, Segment(PT_DYNAMIC, PF_R + PF_W, dynOff, Vaddr(dynOff), dynLen)) +
    MarkerList(l, total)
  }

  function Progs(l: Layout): (ps: seq<Prog>)
    ensures |ps| == PhdrCount(l)
  {
    ProgList(l, HeaderLen(l), |InterpBytes(l)|, DynOff(l), 16 * DynCount(l), Total(l))
  }

  function PhdrBytes(p: Prog): (b: seq<byte>)
    ensures |b| == PHDR_SIZE
  {
    Le(4, p.typ) + Le(4, p.flags) + Le(8, p.off) + Le(8, p.vaddr) + Le(8, p.vaddr) + Le(8, p.filesz) +
    Le(8, p.memsz) + Le(8, 0x1000)
  }

  function PhdrsBytes(ps: seq<Prog>): (b: seq<byte>)
    ensures |b| == PHDR_SIZE * |ps|
  {
    if ps == [] then [] else PhdrBytes(ps[0]) + PhdrsBytes(ps[1..])
  }

  const IDENT: seq<byte> := [0x7f, 0x45, 0x4c, 0x46, 2, 1, 1, 0, 0, 0, 0, 0, 0, 0, 0, 0]

  function FileType(l: Layout): u16 {
    if l.pie || l.etDyn then ET_DYN else ET_EXEC
  }

  function Machine(l: Layout): u16 {
    if l.machine == 0 then EM_X86_64 else l.machine
  }

  function EhdrBytes(l: Layout): (b: seq<byte>)
    ensures |b| == EHDR_SIZE
  {
    IDENT + Le(2, FileType(l)) + Le(2, Machine(l)) + Le(4, 1) + Le(8, BASE_VADDR) + Le(8, EHDR_SIZE) + Le(8, 0) +
    Le(4, 64) + Le(2, 64) + Le(2, PHDR_SIZE) + Le(2, PhdrCount(l)) + Le(2, 0) + Le(2, 0) + Le(2, 0)
  }

  /** The whole image. */
  function Image(l: Layout): (b: seq<byte>) {
    EhdrBytes(l) + PhdrsBytes(Progs(l)) + Pad8(InterpBytes(l)) + DynBytes(l) + SymTableBytes(Syms(l)) + Pad8(StrTab(l))
  }

  // ---- Layout soundness --------------------------------------------------

  /** Patching changes values only. */
  lemma TemplateMatchesTable(l: Layout)
    ensures |Template(l)| == |DynTable(l)|
    ensures forall i :: 0 <= i < |Template(l)| ==> Template(l)[i].tag == DynTable(l)[i].tag
    ensures HasDyn(l) <==> |DynTable(l)| > 0
  {
    var needed, rpath, runpath := NeededSlot(l), RpathSlot(l), RunpathSlot(l);
    SameTags(l, needed, Vaddr(SymOff(l)), Vaddr(StrOff(l)), U64(|StrTab(l)|), rpath, runpath);
  }

  lemma SameTags(l: Layout, needed: u64, symtab: u64, strtab: u64, strsz: u64, rpath: u64, runpath: u64)
    ensures var table := SymEntries(HasSyms(l), needed, symtab, strtab, strsz) + PathEntries(l, rpath, runpath) +
                         FlagEntries(l);
            && |Template(l)| == |table|
            && (forall i :: 0 <= i < |table| ==> Template(l)[i].tag == table[i].tag)
            && (HasDyn(l) <==> |table| > 0)
  {
    var a, a' := SymEntries(HasSyms(l), 0, 0, 0, 0), SymEntries(HasSyms(l), needed, symtab, strtab, strsz);
    var b, b' := PathEntries(l, 0, 0), PathEntries(l, rpath, runpath);
    assert |a| == |a'| && forall i :: 0 <= i < |a| ==> a[i].tag == a'[i].tag;
    assert |b| == |b'| && forall i :: 0 <= i < |b| ==> b[i].tag == b'[i].tag;
    SameTagsConcat(a, a', b, b', FlagEntries(l));
  }

  lemma SameTagsConcat(a: seq<DynEntry>, a': seq<DynEntry>, b: seq<DynEntry>, b': seq<DynEntry>, c: seq<DynEntry>)
    requires |a| == |a'| && forall i :: 0 <= i < |a| ==> a[i].tag == a'[i].tag
    requires |b| == |b'| && forall i :: 0 <= i < |b| ==> b[i].tag == b'[i].tag
    ensures |a + b + c| == |a' + b' + c|
    ensures forall i :: 0 <= i < |a + b + c| ==> (a + b + c)[i].tag == (a' + b' + c)[i].tag
  {
  }

  lemma DynBytesLength(l: Layout)
    ensures |DynBytes(l)| == 16 * DynCount(l)
  {
    TemplateMatchesTable(l);
  }

  lemma AlignedSums(phdrs: nat, interp: nat, dyns: nat, syms: nat, strs: nat,
                    header: nat, dyn: nat, sym: nat, str: nat, total: nat)
    requires header == EHDR_SIZE + PHDR_SIZE * phdrs && dyn == header + Align8(interp) && sym == dyn + 16 * dyns
    requires str == sym + SYM_SIZE * syms && total == str + Align8(strs)
    ensures header % 8 == 0 && dyn % 8 == 0 && sym % 8 == 0 && str % 8 == 0 && total % 8 == 0
  {
    var h := 8 + 7 * phdrs;
    var d := h + (interp + 7) / 8;
    var s := d + 2 * dyns + 3 * syms;
    Eights(header, h);
    Eights(dyn, d);
    Eights(sym, d + 2 * dyns);
    Eights(str, s);
    Eights(total, s + (strs + 7) / 8);
  }

  lemma Eights(n: nat, k: nat)
    requires n == 8 * k
    ensures n % 8 == 0
  {
  }

  /** The counts computed ahead agree with what is written. */
  lemma CountsSound(l: Layout)
    ensures |Progs(l)| == PhdrCount(l) <= 6
    ensures HasDyn(l) <==> |Template(l)| > 0
    ensures |DynBytes(l)| == 16 * DynCount(l)
  {
    TemplateMatchesTable(l);
    DynBytesLength(l);
  }

  /** The regions follow each other without gap or overlap and end at the end of the image. */
  lemma LayoutSound(l: Layout)
    ensures EHDR_SIZE <= HeaderLen(l) <= HeaderLen(l) + |InterpBytes(l)| <= DynOff(l)
    ensures DynOff(l) + |DynBytes(l)| == SymOff(l)
    ensures SymOff(l) + |SymTableBytes(Syms(l))| == StrOff(l)
    ensures StrOff(l) + |StrTab(l)| <= Total(l) == |Image(l)|
  {
    hide Progs, StrTab, Syms, InterpBytes, DynBytes, EhdrBytes, PhdrsBytes, SymTableBytes;
    DynBytesLength(l);
  }

  /** Every region starts at a multiple of eight. */
  lemma LayoutAligned(l: Layout)
    ensures HeaderLen(l) % 8 == 0 && DynOff(l) % 8 == 0 && SymOff(l) % 8 == 0 && StrOff(l) % 8 == 0
    ensures Total(l) % 8 == 0
  {
    AlignedSums(PhdrCount(l), |InterpBytes(l)|, DynCount(l), |SymNames(l)|, |StrTab(l)|,
                HeaderLen(l), DynOff(l), SymOff(l), StrOff(l), Total(l));
  }

  /** `raw` has the image's size and holds in each region what was meant for it. */
  ghost predicate Holds(raw: seq<byte>, l: Layout) {
    SlicesOf(raw, EhdrBytes(l), PhdrsBytes(Progs(l)), InterpBytes(l), DynBytes(l), SymTableBytes(Syms(l)), StrTab(l),
             HeaderLen(l), DynOff(l), SymOff(l), StrOff(l), Total(l))
  }

  /** Each region of the image holds what was meant for it. */
  lemma ImageHolds(l: Layout)
    ensures Holds(Image(l), l)
  {
    LayoutSound(l);
    Sliced(Image(l), EhdrBytes(l), PhdrsBytes(Progs(l)), InterpBytes(l), DynBytes(l), SymTableBytes(Syms(l)), StrTab(l),
           HeaderLen(l), DynOff(l), SymOff(l), StrOff(l), Total(l));
  }

  ghost predicate SlicesOf(s: seq<byte>, a: seq<byte>, b: seq<byte>, c: seq<byte>, d: seq<byte>, e: seq<byte>,
                           g: seq<byte>, atC: nat, atD: nat, atE: nat, atG: nat, total: nat)
  {
    && |s| == total
    && atC == |a| + |b| && atC + |c| <= atD && atE == atD + |d| && atG == atE + |e| && atG + |g| <= total
    && s[..|a|] == a
    && s[|a|..atC] == b
    && s[atC..atC + |c|] == c
    && s[atD..atE] == d
    && s[atE..atG] == e
    && s[atG..atG + |g|] == g
    && s[atE..] == e + Pad8(g)
  }

  lemma Sliced(s: seq<byte>, a: seq<byte>, b: seq<byte>, c: seq<byte>, d: seq<byte>, e: seq<byte>, g: seq<byte>,
               atC: nat, atD: nat, atE: nat, atG: nat, total: nat)
    requires s == a + b + Pad8(c) + d + e + Pad8(g)
    requires atC == |a| + |b| && atD == atC + |Pad8(c)| && atE == atD + |d| && atG == atE + |e|
    requires total == atG + |Pad8(g)|
    ensures SlicesOf(s, a, b, c, d, e, g, atC, atD, atE, atG, total)
  {
    SlicedParts(s, a, b, Pad8(c), d, e, Pad8(g), atC, atD, atE, atG);
    hide Pad8, Align8;
    PrefixSlice(s, atC, Pad8(c), c);
    PrefixSlice(s, atG, Pad8(g), g);
  }

  lemma SlicedParts(s: seq<byte>, a: seq<byte>, b: seq<byte>, c: seq<byte>, d: seq<byte>, e: seq<byte>, g: seq<byte>,
                    atC: nat, atD: nat, atE: nat, atG: nat)
    requires s == a + b + c + d + e + g
    requires atC == |a| + |b| && atD == atC + |c| && atE == atD + |d| && atG == atE + |e|
    ensures |s| == atG + |g| && s[..|a|] == a && s[|a|..atC] == b && s[atC..atD] == c && s[atD..atE] == d
    ensures s[atE..atG] == e && s[atG..] == g && s[atE..] == e + g
  {
    RightNested(a, b, c, d, e, g);
    Suffix(s, 0, a, b + (c + (d + (e + g)))) by {
      assert s[0..] == s;
    }
    Suffix(s, |a|, b, c + (d + (e + g)));
    Suffix(s, atC, c, d + (e + g));
    Suffix(s, atD, d, e + g);
    Suffix(s, atE, e, g);
  }

  lemma RightNested(a: seq<byte>, b: seq<byte>, c: seq<byte>, d: seq<byte>, e: seq<byte>, g: seq<byte>)
    ensures a + b + c + d + e + g == a + (b + (c + (d + (e + g))))
  {
    assert d + (e + g) == d + e + g;
    assert c + (d + e + g) == c + d + e + g;
    assert b + (c + d + e + g) == b + c + d + e + g;
    assert a + (b + c + d + e + g) == a + b + c + d + e + g;
  }

  /** What follows `x` in a suffix of `s`. */
  lemma Suffix(s: seq<byte>, at: nat, x: seq<byte>, rest: seq<byte>)
    requires at <= |s| && s[at..] == x + rest
    ensures |s| == at + |x| + |rest|
    ensures s[at..at + |x|] == x && s[at + |x|..] == rest
  {
    var t := s[at..];
    assert s[at..at + |x|] == t[..|x|] && s[at + |x|..] == t[|x|..];
  }

  lemma PrefixSlice(s: seq<byte>, at: nat, x: seq<byte>, y: seq<byte>)
    requires at + |x| <= |s| && s[at..at + |x|] == x && y <= x
    ensures s[at..at + |y|] == y
  {
    var t := s[at..at + |x|];
    assert s[at..at + |y|] == t[..|y|];
  }
}
