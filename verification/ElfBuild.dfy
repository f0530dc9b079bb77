/** The generator itself: it fills buffers in place, and what it leaves there is the image. */
module ElfBuild {
  import opened Bytes
  import opened Elf
  import opened Dyn
  import opened DynProperties
  import opened ElfGen

  // ---- Writing into buffers ----------------------------------------------

  function Splice(s: seq<byte>, off: nat, chunk: seq<byte>): (r: seq<byte>)
    requires off + |chunk| <= |s|
    ensures |r| == |s|
  {
    s[..off] + chunk + s[off + |chunk|..]
  }

  method CopyInto(b: array<byte>, off: nat, chunk: seq<byte>)
    requires off + |chunk| <= b.Length
    modifies b
    ensures b[..] == Splice(old(b[..]), off, chunk)
  {
    forall i | 0 <= i < |chunk| {
      b[off + i] := chunk[i];
    }
  }

  /** `s` holds `done` and is still zero after it. */
  ghost predicate Filled(s: seq<byte>, done: seq<byte>) {
    |done| <= |s| && s == done + Zeros(|s| - |done|)
  }

  lemma FilledNext(s: seq<byte>, done: seq<byte>, chunk: seq<byte>)
    requires Filled(s, done) && |done| + |chunk| <= |s|
    ensures Filled(Splice(s, |done|, chunk), done + chunk)
  {
  }

  lemma FilledZeros(s: seq<byte>, done: seq<byte>, n: nat)
    requires Filled(s, done) && |done| + n <= |s|
    ensures Filled(s, done + Zeros(n))
  {
  }

  /** Writes `chunk` right after `done`. */
  method WriteNext(b: array<byte>, ghost done: seq<byte>, off: nat, chunk: seq<byte>)
    requires Filled(b[..], done) && off == |done| && off + |chunk| <= b.Length
    modifies b
    ensures Filled(b[..], done + chunk)
  {
    FilledNext(b[..], done, chunk);
    CopyInto(b, off, chunk);
  }

  method NewBuffer(n: nat) returns (b: array<byte>)
    ensures fresh(b) && b.Length == n && Filled(b[..], [])
  {
    b := new byte[n](_ => 0);
  }

  // ---- Strings -----------------------------------------------------------

  method AddString(strBuf: seq<byte>, s: GoString) returns (off: u32, longer: seq<byte>)
    ensures off == |strBuf| % TWO_TO_32
    ensures longer == strBuf + BytesOf(s) + [0]
  {
    off := |strBuf| % TWO_TO_32;
    longer := strBuf + BytesOf(s);
    longer := longer + [0];
  }

  /** Gives every name in `added` a slot after those of `placed`, with one record each. */
  method AddSymbols(strBuf: seq<byte>, added: seq<GoString>, info: byte, ghost placed: seq<GoString>)
    returns (strBuf': seq<byte>, syms: seq<SymRecord>)
    requires strBuf == Packed(placed)
    ensures strBuf' == Packed(placed + added)
    ensures syms == Slots(placed, added, info)
  {
    strBuf', syms := strBuf, [];
    assert placed + added[..0] == placed;
    for i := 0 to |added|
      invariant strBuf' == Packed(placed + added[..i])
      invariant syms == Slots(placed, added[..i], info)
    {
      var off: u32;
      off, strBuf' := AddString(strBuf', added[i]);
      PackedAppend(placed + added[..i], added[i]);
      assert placed + added[..i + 1] == (placed + added[..i]) + [added[i]];
      assert added[..i + 1][..i] == added[..i];
      syms := syms + [SymRecord(off, info)];
    }
    assert added[..|added|] == added;
  }

  /** The loop that joins the path entries with colons. */
  method JoinEntries(entries: seq<GoString>) returns (joined: GoString)
    ensures joined == JoinedPath(entries)
  {
    joined := "";
    for i := 0 to |entries|
      invariant joined == JoinedPath(entries[..i])
    {
      assert entries[..i + 1][..i] == entries[..i];
      joined := JoinNext(joined, entries[i]);
    }
    assert entries[..|entries|] == entries;
  }

  datatype StringSlots = StringSlots(strBuf: seq<byte>, syms: seq<SymRecord>, needed: int, rpath: int, runpath: int)

  /** Offsets of strings that have a slot; -1 stands for a missing one. */
  ghost predicate StringsOfLayout(t: StringSlots, l: Layout) {
    && t.strBuf == StrTab(l)
    && t.syms == Syms(l)
    && t.needed == (if HasSyms(l) then NeededSlot(l) else -1)
    && t.rpath == (if JoinedPath(l.rpath) != "" then RpathSlot(l) else -1)
    && t.runpath == (if JoinedPath(l.runpath) != "" then RunpathSlot(l) else -1)
  }

  /** Adds one optional string after `placed`. */
  method AddOptional(strBuf: seq<byte>, present: bool, s: GoString, ghost placed: seq<GoString>)
    returns (off: int, strBuf': seq<byte>)
    requires strBuf == Packed(placed)
    ensures strBuf' == Packed(placed + OneIf(present, s))
    ensures off == if present then |Packed(placed)| % TWO_TO_32 else -1
  {
    off, strBuf' := -1, strBuf;
    if present {
      PackedAppend(placed, s);
      off, strBuf' := AddString(strBuf, s);
    } else {
      assert placed + [] == placed;
    }
  }

  method BuildStrings(l: Layout) returns (t: StringSlots, rpathStr: GoString, runpathStr: GoString)
    ensures StringsOfLayout(t, l)
    ensures rpathStr == JoinedPath(l.rpath) && runpathStr == JoinedPath(l.runpath)
  {
    var strBuf: seq<byte> := [0];
    var funcs, objects: seq<SymRecord>;
    strBuf, funcs := AddSymbols(strBuf, l.dynSyms, FUNC_INFO, []);
    assert [] + l.dynSyms == l.dynSyms;
    strBuf, objects := AddSymbols(strBuf, l.objectSyms, OBJECT_INFO, l.dynSyms);
    var syms := funcs + objects;
    var needed, rpath, runpath: int;
    needed, strBuf := AddOptional(strBuf, |syms| > 0, LIBC, SymNames(l));
    rpathStr := JoinEntries(l.rpath);
    runpathStr := JoinEntries(l.runpath);
    rpath, strBuf := AddOptional(strBuf, rpathStr != "", rpathStr, SymNames(l) + OneIf(HasSyms(l), LIBC));
    runpath, strBuf := AddOptional(strBuf, runpathStr != "", runpathStr,
                                   SymNames(l) + OneIf(HasSyms(l), LIBC) + OneIf(rpathStr != "", rpathStr));
    if l.pacIBSP {
      strBuf := strBuf + PACIBSP;
    } else {
      assert strBuf + [] == strBuf;
    }
    t := StringSlots(strBuf, syms, needed, rpath, runpath);
  }

  // ---- Symbol and dynamic tables -----------------------------------------

  lemma SymTableAppend(syms: seq<SymRecord>, s: SymRecord)
    ensures SymTableBytes(syms + [s]) == SymTableBytes(syms) + SymBytes(s)
  {
    if syms == [] {
      assert SymTableBytes([s]) == SymBytes(s) + [];
    } else {
      assert (syms + [s])[1..] == syms[1..] + [s];
      SymTableAppend(syms[1..], s);
    }
  }

  /** Fills one 24-byte symbol entry after `done`; the bytes it does not write stay zero. */
  method WriteSym(data: array<byte>, ghost done: seq<byte>, at: nat, s: SymRecord)
    requires Filled(data[..], done) && at == |done| && at + SYM_SIZE <= data.Length
    modifies data
    ensures Filled(data[..], done + SymBytes(s))
  {
    WriteNext(data, done, at, Le(4, s.nameOff));
    WriteNext(data, done + Le(4, s.nameOff), at + 4, [s.info]);
    ghost var head := done + Le(4, s.nameOff) + [s.info];
    FilledZeros(data[..], head, 1);
    WriteNext(data, head + Zeros(1), at + 6, Le(2, 0));
    assert Le(2, 0) == Zeros(2);
    FilledZeros(data[..], head + Zeros(1) + Le(2, 0), 16);
    assert head + Zeros(1) + Le(2, 0) + Zeros(16) == done + SymBytes(s);
  }

  method WriteSyms(syms: seq<SymRecord>) returns (data: array<byte>)
    ensures fresh(data) && data[..] == SymTableBytes(syms)
  {
    data := NewBuffer(SYM_SIZE * |syms|);
    for i := 0 to |syms|
      invariant Filled(data[..], SymTableBytes(syms[..i]))
    {
      WriteSym(data, SymTableBytes(syms[..i]), i * SYM_SIZE, syms[i]);
      SymTableAppend(syms[..i], syms[i]);
      assert syms[..i + 1] == syms[..i] + [syms[i]];
    }
    assert syms[..|syms|] == syms;
  }

  /** The values known only after placement. */
  datatype Patches = Patches(needed: int, symtab: u64, strtab: u64, strsz: u64, rpath: int, runpath: int)

  function Patched(e: DynEntry, p: Patches): DynEntry {
    DynEntry(e.tag,
             if e.tag == DT_NEEDED then p.needed % TWO_TO_64
             else if e.tag == DT_SYMTAB then p.symtab
             else if e.tag == DT_STRTAB then p.strtab
             else if e.tag == DT_STRSZ then p.strsz
             else if e.tag == DT_RPATH then p.rpath % TWO_TO_64
             else if e.tag == DT_RUNPATH then p.runpath % TWO_TO_64
             else if e.tag == DT_BIND_NOW then 0
             else e.val)
  }

  function PatchAll(es: seq<DynEntry>, p: Patches): (r: seq<DynEntry>)
    ensures |r| == |es|
  {
    seq(|es|, i requires 0 <= i < |es| => Patched(es[i], p))
  }

  /** Writes one dynamic entry at the running position. */
  method WriteEntry(data: array<byte>, ghost done: seq<byte>, di: nat, e: DynEntry) returns (di': nat)
    requires Filled(data[..], done) && di * 16 == |done| && di * 16 + 16 <= data.Length
    modifies data
    ensures Filled(data[..], done + EntryBytes(e, Elf64, LittleEndian))
    ensures di' == di + 1
  {
    WriteNext(data, done, di * 16, Le(8, e.tag));
    WriteNext(data, done + Le(8, e.tag), di * 16 + 8, Le(8, e.val));
    assert done + Le(8, e.tag) + Le(8, e.val) == done + EntryBytes(e, Elf64, LittleEndian);
    di' := di + 1;
  }

  /** The patch loop; the running position ends exactly at the end of the section. */
  method WriteDynamic(tmpDyn: seq<DynEntry>, p: Patches) returns (data: array<byte>)
    ensures fresh(data) && data[..] == EntriesBytes(PatchAll(tmpDyn, p), Elf64, LittleEndian)
  {
    data := NewBuffer(16 * |tmpDyn|);
    ghost var all := PatchAll(tmpDyn, p);
    var di := 0;
    for i := 0 to |tmpDyn|
      invariant di == i
      invariant Filled(data[..], EntriesBytes(all[..i], Elf64, LittleEndian))
    {
      di := WriteEntry(data, EntriesBytes(all[..i], Elf64, LittleEndian), di, Patched(tmpDyn[i], p));
      EntriesAppend(all[..i], all[i], Elf64, LittleEndian);
      assert all[..i + 1] == all[..i] + [all[i]];
    }
    assert di * 16 == data.Length;
    assert all[..|all|] == all;
  }

  /** The entries the generator collects before it knows any address. */
  method CollectEntries(l: Layout, hasSyms: bool, rpathStr: GoString, runpathStr: GoString)
    returns (tmpDyn: seq<DynEntry>)
    requires hasSyms == HasSyms(l) && rpathStr == JoinedPath(l.rpath) && runpathStr == JoinedPath(l.runpath)
    ensures tmpDyn == if HasDyn(l) then Template(l) + [NULL_ENTRY] else []
  {
    tmpDyn := [];
    if hasSyms {
      tmpDyn := tmpDyn + [DynEntry(DT_NEEDED, 0)];
      tmpDyn := tmpDyn + [DynEntry(DT_SYMTAB, 0)];
      tmpDyn := tmpDyn + [DynEntry(DT_STRTAB, 0)];
      tmpDyn := tmpDyn + [DynEntry(DT_STRSZ, 0)];
      tmpDyn := tmpDyn + [DynEntry(DT_SYMENT, SYM_SIZE)];
    }
    assert tmpDyn == SymEntries(hasSyms, 0, 0, 0, 0);
    ghost var syms := tmpDyn;
    if rpathStr != "" {
      tmpDyn := tmpDyn + [DynEntry(DT_RPATH, 0)];
    }
    if runpathStr != "" {
      tmpDyn := tmpDyn + [DynEntry(DT_RUNPATH, 0)];
    }
    assert tmpDyn == syms + PathEntries(l, 0, 0);
    ghost var paths := tmpDyn;
    tmpDyn := CollectFlags(l, tmpDyn);
    assert tmpDyn == Template(l);
    TemplateMatchesTable(l);
    if |tmpDyn| > 0 {
      tmpDyn := tmpDyn + [NULL_ENTRY];
    }
  }

  method CollectFlags(l: Layout, tmpDyn0: seq<DynEntry>) returns (tmpDyn: seq<DynEntry>)
    ensures tmpDyn == tmpDyn0 + FlagEntries(l)
  {
    ghost var now, text := EntryIf(l.bindNow, DT_BIND_NOW, 0), EntryIf(l.textRel, DT_TEXTREL, 0);
    ghost var bits := EntryIf(FlagsValue(l) != 0, DT_FLAGS, FlagsValue(l));
    ghost var pie := EntryIf(l.flags1Pie, DT_FLAGS_1, DF_1_PIE);
    tmpDyn := tmpDyn0;
    if l.bindNow {
      tmpDyn := tmpDyn + [DynEntry(DT_BIND_NOW, 0)];
    }
    assert tmpDyn == tmpDyn0 + now;
    if l.textRel {
      tmpDyn := tmpDyn + [DynEntry(DT_TEXTREL, 0)];
    }
    assert tmpDyn == tmpDyn0 + now + text;
    var flagsVal := 0;
    if l.flagsBind {
      flagsVal := flagsVal + DF_BIND_NOW;  // distinct single bits: or is addition
    }
    if l.flagsTextRel {
      flagsVal := flagsVal + DF_TEXTREL;
    }
    if flagsVal != 0 {
      tmpDyn := tmpDyn + [DynEntry(DT_FLAGS, flagsVal)];
    }
    assert tmpDyn == tmpDyn0 + now + text + bits;
    if l.flags1Pie {
      tmpDyn := tmpDyn + [DynEntry(DT_FLAGS_1, DF_1_PIE)];
    }
    hide EntryIf, FlagsValue;
    FourAppended(tmpDyn0, now, text, bits, pie);
  }

  lemma FourAppended(a: seq<DynEntry>, b: seq<DynEntry>, c: seq<DynEntry>, d: seq<DynEntry>, e: seq<DynEntry>)
    ensures a + b + c + d + e == a + (b + c + d + e)
  {
  }

  lemma TemplatePatched(l: Layout, p: Patches)
    requires p.needed == (if HasSyms(l) then NeededSlot(l) else -1)
    requires p.symtab == Vaddr(SymOff(l)) && p.strtab == Vaddr(StrOff(l)) && p.strsz == U64(|StrTab(l)|)
    requires p.rpath == (if JoinedPath(l.rpath) != "" then RpathSlot(l) else -1)
    requires p.runpath == (if JoinedPath(l.runpath) != "" then RunpathSlot(l) else -1)
    ensures PatchAll(Template(l) + [NULL_ENTRY], p) == DynTable(l) + [NULL_ENTRY]
  {
    hide SymEntries, PathEntries, FlagEntries, PatchAll, Template, StrTab, SlotAfter, SymOff, StrOff;
    PatchPieces(l, p, NeededSlot(l), RpathSlot(l), RunpathSlot(l));
  }

  lemma PatchPieces(l: Layout, p: Patches, needed: u64, rpath: u64, runpath: u64)
    requires HasSyms(l) ==> p.needed == needed
    requires JoinedPath(l.rpath) != "" ==> p.rpath == rpath
    requires JoinedPath(l.runpath) != "" ==> p.runpath == runpath
    ensures PatchAll(Template(l) + [NULL_ENTRY], p) ==
            SymEntries(HasSyms(l), needed, p.symtab, p.strtab, p.strsz) + PathEntries(l, rpath, runpath) +
            FlagEntries(l) + [NULL_ENTRY]
  {
    var a, b, c := SymEntries(HasSyms(l), 0, 0, 0, 0), PathEntries(l, 0, 0), FlagEntries(l);
    assert Template(l) == a + b + c;
    PatchConcat(a, b, p);
    PatchConcat(a + b, c, p);
    PatchConcat(a + b + c, [NULL_ENTRY], p);
    PatchSyms(HasSyms(l), p, needed);
    PatchPaths(l, p, rpath, runpath);
    PatchFlags(l, p);
    PatchSame([NULL_ENTRY], p);
  }

  lemma PatchSyms(present: bool, p: Patches, needed: u64)
    requires present ==> p.needed == needed
    ensures PatchAll(SymEntries(present, 0, 0, 0, 0), p) == SymEntries(present, needed, p.symtab, p.strtab, p.strsz)
  {
  }

  lemma PatchPaths(l: Layout, p: Patches, rpath: u64, runpath: u64)
    requires JoinedPath(l.rpath) != "" ==> p.rpath == rpath
    requires JoinedPath(l.runpath) != "" ==> p.runpath == runpath
    ensures PatchAll(PathEntries(l, 0, 0), p) == PathEntries(l, rpath, runpath)
  {
    var a, b := EntryIf(JoinedPath(l.rpath) != "", DT_RPATH, 0), EntryIf(JoinedPath(l.runpath) != "", DT_RUNPATH, 0);
    PatchConcat(a, b, p);
    assert PatchAll(a, p) == EntryIf(JoinedPath(l.rpath) != "", DT_RPATH, rpath);
    assert PatchAll(b, p) == EntryIf(JoinedPath(l.runpath) != "", DT_RUNPATH, runpath);
  }

  lemma PatchFlags(l: Layout, p: Patches)
    ensures PatchAll(FlagEntries(l), p) == FlagEntries(l)
  {
    PatchSame(FlagEntries(l), p);
  }

  lemma PatchSame(es: seq<DynEntry>, p: Patches)
    requires forall i :: 0 <= i < |es| ==> Patched(es[i], p) == es[i]
    ensures PatchAll(es, p) == es
  {
  }

  lemma PatchConcat(a: seq<DynEntry>, b: seq<DynEntry>, p: Patches)
    ensures PatchAll(a + b, p) == PatchAll(a, p) + PatchAll(b, p)
  {
  }

  // ---- Headers -----------------------------------------------------------

  lemma PhdrsAppend(ps: seq<Prog>, p: Prog)
    ensures PhdrsBytes(ps + [p]) == PhdrsBytes(ps) + PhdrBytes(p)
  {
    if ps == [] {
      assert PhdrsBytes([p]) == PhdrBytes(p) + [];
    } else {
      assert (ps + [p])[1..] == ps[1..] + [p];
      PhdrsAppend(ps[1..], p);
    }
  }

  /** Writes one program header at the running position. */
  method WritePh(ph: array<byte>, ghost ps: seq<Prog>, pi: nat, p: Prog) returns (pi': nat)
    requires Filled(ph[..], PhdrsBytes(ps)) && pi == |ps| && pi * PHDR_SIZE + PHDR_SIZE <= ph.Length
    modifies ph
    ensures Filled(ph[..], PhdrsBytes(ps + [p]))
    ensures pi' == pi + 1
  {
    var b := pi * PHDR_SIZE;
    ghost var d0 := PhdrsBytes(ps);
    WriteNext(ph, d0, b, Le(4, p.typ));
    ghost var d1 := d0 + Le(4, p.typ);
    WriteNext(ph, d1, b + 4, Le(4, p.flags));
    ghost var d2 := d1 + Le(4, p.flags);
    WriteNext(ph, d2, b + 8, Le(8, p.off));
    ghost var d3 := d2 + Le(8, p.off);
    WriteNext(ph, d3, b + 16, Le(8, p.vaddr));
    WritePhTail(ph, d3 + Le(8, p.vaddr), b, p);
    PhdrsAppend(ps, p);
    PhdrPieces(d0, p);
    pi' := pi + 1;
  }

  lemma PhdrPieces(d: seq<byte>, p: Prog)
    ensures d + Le(4, p.typ) + Le(4, p.flags) + Le(8, p.off) + Le(8, p.vaddr) + Le(8, p.vaddr) + Le(8, p.filesz) +
            Le(8, p.memsz) + Le(8, 0x1000) == d + PhdrBytes(p)
  {
    EightPieces(d, Le(4, p.typ), Le(4, p.flags), Le(8, p.off), Le(8, p.vaddr), Le(8, p.vaddr), Le(8, p.filesz),
                Le(8, p.memsz), Le(8, 0x1000));
  }

  lemma EightPieces(d: seq<byte>, a: seq<byte>, b: seq<byte>, c: seq<byte>, e: seq<byte>, f: seq<byte>, g: seq<byte>,
                    h: seq<byte>, i: seq<byte>)
    ensures d + a + b + c + e + f + g + h + i == d + (a + b + c + e + f + g + h + i)
  {
    Assoc(d, a, b);
    Assoc(d, a + b, c);
    Assoc(d, a + b + c, e);
    Assoc(d, a + b + c + e, f);
    Assoc(d, a + b + c + e + f, g);
    Assoc(d, a + b + c + e + f + g, h);
    Assoc(d, a + b + c + e + f + g + h, i);
  }

  lemma Assoc(a: seq<byte>, b: seq<byte>, c: seq<byte>)
    ensures a + b + c == a + (b + c)
  {
  }

  /** The second half of a program header, from the physical address on. */
  method WritePhTail(ph: array<byte>, ghost d4: seq<byte>, b: nat, p: Prog)
    requires Filled(ph[..], d4) && b + 24 == |d4| && b + PHDR_SIZE <= ph.Length
    modifies ph
    ensures Filled(ph[..], d4 + Le(8, p.vaddr) + Le(8, p.filesz) + Le(8, p.memsz) + Le(8, 0x1000))
  {
    WriteNext(ph, d4, b + 24, Le(8, p.vaddr));
    ghost var d5 := d4 + Le(8, p.vaddr);
    WriteNext(ph, d5, b + 32, Le(8, p.filesz));
    ghost var d6 := d5 + Le(8, p.filesz);
    WriteNext(ph, d6, b + 40, Le(8, p.memsz));
    ghost var d7 := d6 + Le(8, p.memsz);
    WriteNext(ph, d7, b + 48, Le(8, 0x1000));
  }

  /** Writes the header if it is wanted. */
  method WritePhIf(ph: array<byte>, ghost ps: seq<Prog>, pi: nat, present: bool, p: Prog) returns (pi': nat)
    requires Filled(ph[..], PhdrsBytes(ps)) && pi == |ps|
    requires present ==> pi * PHDR_SIZE + PHDR_SIZE <= ph.Length
    modifies ph
    ensures Filled(ph[..], PhdrsBytes(ps + ProgIf(present, p)))
    ensures pi' == |ps + ProgIf(present, p)|
  {
    pi' := pi;
    if present {
      pi' := WritePh(ph, ps, pi, p);
    } else {
      assert ps + [] == ps;
    }
  }

  method WritePhdrs(l: Layout, phdrCount: nat, interpOff: nat, interpLen: nat, dynOff: nat, dynLen: nat, totalLen: nat)
    returns (ph: array<byte>)
    requires phdrCount == |ProgList(l, interpOff, interpLen, dynOff, dynLen, totalLen)|
    ensures fresh(ph) && ph[..] == PhdrsBytes(ProgList(l, interpOff, interpLen, dynOff, dynLen, totalLen))
  {
    ph := NewBuffer(phdrCount * PHDR_SIZE);
    var pi := 0;
    var load := Segment(PT_LOAD, PF_R + PF_X, 0, BASE_VADDR, totalLen);
    pi := WritePh(ph, [], pi, load);
    ghost var ps := [load];
    assert [] + [load] == ps;
    var interp := Segment(PT_INTERP, PF_R, interpOff, Vaddr(interpOff), interpLen);
    pi := WritePhIf(ph, ps, pi, interpLen > 0, interp);
    ps := ps + ProgIf(interpLen > 0, interp);
    var dynamic := Segment(PT_DYNAMIC, PF_R + PF_W, dynOff, Vaddr(dynOff), dynLen);
    pi := WritePhIf(ph, ps, pi, dynLen > 0, dynamic);
    ps := ps + ProgIf(dynLen > 0, dynamic);
    pi := WriteMarkers(ph, ps, pi, l, totalLen);
    assert pi == phdrCount;
  }

  lemma StackFlagsAre(l: Layout)
    ensures StackFlags(l) == PF_R + PF_W + if l.gnuStackX then PF_X else 0
  {
  }

  /** The header-only segments: RELRO, retguard and stack. */
  method WriteMarkers(ph: array<byte>, ghost ps0: seq<Prog>, pi0: nat, l: Layout, totalLen: nat) returns (pi: nat)
    requires Filled(ph[..], PhdrsBytes(ps0)) && pi0 == |ps0|
    requires ph.Length >= PHDR_SIZE * |ps0 + MarkerList(l, totalLen)|
    modifies ph
    ensures Filled(ph[..], PhdrsBytes(ps0 + MarkerList(l, totalLen)))
    ensures pi == |ps0 + MarkerList(l, totalLen)|
  {
    hide Filled, PhdrsBytes, Segment, StackFlags;
    ghost var ps := ps0;
    pi := pi0;
    var relro := Segment(PT_GNU_RELRO, PF_R, 0, BASE_VADDR, totalLen);
    pi := WritePhIf(ph, ps, pi, l.relro, relro);
    ps := ps + ProgIf(l.relro, relro);
    var retguard := Segment(PT_OHOS_RETGUARD, PF_R, 0, BASE_VADDR, 0);
    pi := WritePhIf(ph, ps, pi, l.retguard, retguard);
    ps := ps + ProgIf(l.retguard, retguard);
    var flags := PF_R + PF_W;
    if l.gnuStackX {
      flags := flags + PF_X;
    }
    StackFlagsAre(l);
    var stack := Segment(PT_GNU_STACK, flags, 0, 0, 0);
    pi := WritePhIf(ph, ps, pi, !l.noStack, stack);
    ps := ps + ProgIf(!l.noStack, stack);
    assert ps == ps0 + MarkerList(l, totalLen);
  }

  /** Fills the ELF header of a zeroed buffer. */
  method WriteEhdr(buf: array<byte>, l: Layout, phdrCount: nat)
    requires buf.Length >= EHDR_SIZE && Filled(buf[..], []) && phdrCount == PhdrCount(l)
    modifies buf
    ensures Filled(buf[..], EhdrBytes(l))
  {
    WriteNext(buf, [], 0, [0x7f, 0x45, 0x4c, 0x46, 2, 1, 1]);
    ghost var d0 := [] + [0x7f, 0x45, 0x4c, 0x46, 2, 1, 1];
    FilledZeros(buf[..], d0, 9);
    assert d0 + Zeros(9) == IDENT;
    var typ: u16 := ET_EXEC;
    WriteNext(buf, IDENT, 16, Le(2, typ));
    if l.pie || l.etDyn {
      Rewritten(buf[..], IDENT, Le(2, typ), Le(2, ET_DYN));
      typ := ET_DYN;
      CopyInto(buf, 16, Le(2, typ));
    }
    var mach := l.machine;
    if mach == 0 {
      mach := EM_X86_64;
    }
    ghost var d1 := IDENT + Le(2, FileType(l));
    WriteNext(buf, d1, 18, Le(2, mach));
    ghost var d2 := d1 + Le(2, Machine(l));
    WriteNext(buf, d2, 20, Le(4, 1));
    ghost var d3 := d2 + Le(4, 1);
    WriteNext(buf, d3, 24, Le(8, BASE_VADDR));
    ghost var d4 := d3 + Le(8, BASE_VADDR);
    WriteEhdrCounts(buf, d4, phdrCount);
  }

  /** The second half of the ELF header, from the program-header offset on. */
  method WriteEhdrCounts(buf: array<byte>, ghost d4: seq<byte>, phdrCount: nat)
    requires |d4| == 32 && buf.Length >= EHDR_SIZE && Filled(buf[..], d4)
    modifies buf
    ensures Filled(buf[..], d4 + Le(8, EHDR_SIZE) + Le(8, 0) + Le(4, 64) + Le(2, 64) + Le(2, PHDR_SIZE) +
                            Le(2, phdrCount) + Le(2, 0) + Le(2, 0) + Le(2, 0))
  {
    WriteNext(buf, d4, 32, Le(8, EHDR_SIZE));
    ghost var d5 := d4 + Le(8, EHDR_SIZE);
    WriteNext(buf, d5, 40, Le(8, 0));
    ghost var d6 := d5 + Le(8, 0);
    WriteNext(buf, d6, 48, Le(4, 64));
    ghost var d7 := d6 + Le(4, 64);
    WriteNext(buf, d7, 52, Le(2, 64));
    ghost var d8 := d7 + Le(2, 64);
    WriteNext(buf, d8, 54, Le(2, PHDR_SIZE));
    ghost var d9 := d8 + Le(2, PHDR_SIZE);
    WriteNext(buf, d9, 56, Le(2, phdrCount));
    ghost var d10 := d9 + Le(2, phdrCount);
    WriteNext(buf, d10, 58, Le(2, 0));
    ghost var d11 := d10 + Le(2, 0);
    WriteNext(buf, d11, 60, Le(2, 0));
    ghost var d12 := d11 + Le(2, 0);
    WriteNext(buf, d12, 62, Le(2, 0));
  }

  lemma Rewritten(s: seq<byte>, done: seq<byte>, chunk: seq<byte>, chunk': seq<byte>)
    requires Filled(s, done + chunk) && |chunk| == |chunk'|
    ensures Filled(Splice(s, |done|, chunk'), done + chunk')
  {
  }

  // ---- The image ---------------------------------------------------------

  /** Assembles the ELF image of one layout. */
  method Build(l: Layout) returns (buf: array<byte>)
    ensures fresh(buf) && buf[..] == Image(l)
  {
    var t, rpathStr, runpathStr := BuildStrings(l);
    var hasSyms := |t.syms| > 0;
    var phdrCount := CountPhdrs(l, hasSyms, rpathStr, runpathStr);
    var headerLen := EHDR_SIZE + phdrCount * PHDR_SIZE;
    var tmpDyn := CollectEntries(l, hasSyms, rpathStr, runpathStr);
    var interp: seq<byte> := BytesOf(INTERPRETER);
    if !l.interp && !l.pie {
      interp := [];
    }
    buf := PlaceAndWrite(l, t, tmpDyn, phdrCount, headerLen, interp);
  }

  method CountPhdrs(l: Layout, hasSyms: bool, rpathStr: GoString, runpathStr: GoString) returns (phdrCount: nat)
    requires hasSyms == HasSyms(l) && rpathStr == JoinedPath(l.rpath) && runpathStr == JoinedPath(l.runpath)
    ensures phdrCount == PhdrCount(l)
  {
    phdrCount := 1;
    if l.interp || l.pie {
      phdrCount := phdrCount + 1;
    }
    var hasDyn := hasSyms || l.bindNow || l.flags1Pie || l.flagsBind || l.textRel || l.flagsTextRel ||
                  rpathStr != "" || runpathStr != "";
    if hasDyn {
      phdrCount := phdrCount + 1;
    }
    if l.relro {
      phdrCount := phdrCount + 1;
    }
    if l.retguard {
      phdrCount := phdrCount + 1;
    }
    if !l.noStack {
      phdrCount := phdrCount + 1;
    }
  }

  /** The second half of Build: the sizes are known, so the regions are placed and filled. */
  method PlaceAndWrite(l: Layout, t: StringSlots, tmpDyn: seq<DynEntry>, phdrCount: nat, headerLen: nat,
                       interp: seq<byte>)
    returns (buf: array<byte>)
    requires StringsOfLayout(t, l) && phdrCount == PhdrCount(l) && headerLen == HeaderLen(l)
    requires tmpDyn == if HasDyn(l) then Template(l) + [NULL_ENTRY] else []
    requires interp == InterpBytes(l)
    ensures fresh(buf) && buf[..] == Image(l)
  {
    hide Template, PhdrsBytes, Image, DynBytes, JoinedPath, MarkerList, Packed, Slots;
    LayoutAligned(l);
    CountsSound(l);
    var totalLen, dynOff, symOff, strOff := Place(headerLen, |interp|, |tmpDyn|, |t.syms|, |t.strBuf|);
    PlacedAsSpecified(l, headerLen, dynOff, symOff, strOff, totalLen);
    var ph := WritePhdrs(l, phdrCount, headerLen, |interp|, dynOff, 16 * |tmpDyn|, totalLen);
    buf := WriteImage(l, t, tmpDyn, phdrCount, ph, headerLen, interp, dynOff, symOff, strOff, totalLen);
  }

  method WriteImage(l: Layout, t: StringSlots, tmpDyn: seq<DynEntry>, phdrCount: nat, ph: array<byte>, headerLen: nat,
                    interp: seq<byte>, dynOff: nat, symOff: nat, strOff: nat, totalLen: nat) returns (buf: array<byte>)
    requires StringsOfLayout(t, l) && phdrCount == PhdrCount(l) && headerLen == HeaderLen(l)
    requires tmpDyn == if HasDyn(l) then Template(l) + [NULL_ENTRY] else []
    requires interp == InterpBytes(l) && ph[..] == PhdrsBytes(Progs(l))
    requires dynOff == DynOff(l) && symOff == SymOff(l) && strOff == StrOff(l) && totalLen == Total(l)
    ensures fresh(buf) && buf[..] == Image(l)
  {
    RegionLengths(l);
    hide HeaderLen, DynOff, SymOff, StrOff, Total, InterpBytes, StrTab, Syms, Progs, EhdrBytes, Pad8, DynBytes,
      SymTableBytes, PhdrsBytes, HasDyn, Template, NeededSlot, RpathSlot, RunpathSlot, HasSyms, JoinedPath, Vaddr,
      U64, EntriesBytes, PatchAll;
    buf := NewBuffer(totalLen);
    WriteEhdr(buf, l, phdrCount);
    var symData := WriteSyms(t.syms);
    var p := Patches(t.needed, Vaddr(symOff), Vaddr(strOff), U64(|t.strBuf|), t.rpath, t.runpath);
    var dynData := WriteDynamic(tmpDyn, p);
    DynamicPatched(l, tmpDyn, p);
    FinishImage(buf, EhdrBytes(l), ph, headerLen, interp, dynOff, dynData, symOff, symData, strOff, t.strBuf);
  }

  lemma RegionLengths(l: Layout)
    ensures HeaderLen(l) == EHDR_SIZE + |PhdrsBytes(Progs(l))|
    ensures DynOff(l) == HeaderLen(l) + |Pad8(InterpBytes(l))|
    ensures SymOff(l) == DynOff(l) + |DynBytes(l)|
    ensures StrOff(l) == SymOff(l) + |SymTableBytes(Syms(l))|
    ensures Total(l) == StrOff(l) + |Pad8(StrTab(l))|
  {
    DynBytesLength(l);
  }

  /** Copies the contents, then the program headers, behind the ELF header `a`. */
  method FinishImage(buf: array<byte>, ghost a: seq<byte>, ph: array<byte>, headerLen: nat, interp: seq<byte>,
                     dynOff: nat, dynData: array<byte>, symOff: nat, symData: array<byte>, strOff: nat,
                     strBuf: seq<byte>)
    requires buf != dynData && buf != symData && buf != ph
    requires Filled(buf[..], a) && |a| == EHDR_SIZE && headerLen == |a| + ph.Length
    requires dynOff == headerLen + |Pad8(interp)| && symOff == dynOff + dynData.Length
    requires strOff == symOff + symData.Length && buf.Length == strOff + |Pad8(strBuf)|
    modifies buf
    ensures buf[..] == a + old(ph[..]) + Pad8(interp) + old(dynData[..]) + old(symData[..]) + Pad8(strBuf)
  {
    ghost var b, c, d, e, g := ph[..], Pad8(interp), dynData[..], symData[..], Pad8(strBuf);
    CopySections(buf, a, headerLen, interp, dynOff, dynData, symOff, symData, strOff, strBuf);
    HeadersLast(buf[..], a, b, c + d + e + g);
    CopyInto(buf, EHDR_SIZE, ph[..]);
    ImagePieces(a, b, c, d, e, g);
  }

  lemma ImagePieces(a: seq<byte>, b: seq<byte>, c: seq<byte>, d: seq<byte>, e: seq<byte>, g: seq<byte>)
    ensures a + b + (c + d + e + g) == a + b + c + d + e + g
  {
  }

  lemma DynamicPatched(l: Layout, tmpDyn: seq<DynEntry>, p: Patches)
    requires tmpDyn == if HasDyn(l) then Template(l) + [NULL_ENTRY] else []
    requires p.needed == (if HasSyms(l) then NeededSlot(l) else -1)
    requires p.symtab == Vaddr(SymOff(l)) && p.strtab == Vaddr(StrOff(l)) && p.strsz == U64(|StrTab(l)|)
    requires p.rpath == (if JoinedPath(l.rpath) != "" then RpathSlot(l) else -1)
    requires p.runpath == (if JoinedPath(l.runpath) != "" then RunpathSlot(l) else -1)
    ensures EntriesBytes(PatchAll(tmpDyn, p), Elf64, LittleEndian) == DynBytes(l)
  {
    TemplatePatched(l, p);
  }

  /** The running offset: each present region starts where the previous one ended, rounded up to eight. */
  method Place(headerLen: nat, interpLen: nat, dynCount: nat, symCount: nat, strLen: nat)
    returns (off: nat, dynOff: nat, symOff: nat, strOff: nat)
    requires headerLen % 8 == 0
    ensures dynOff == headerLen + Align8(interpLen)
    ensures symOff == dynOff + 16 * dynCount
    ensures strOff == symOff + SYM_SIZE * symCount
    ensures off == strOff + Align8(strLen)
  {
    hide Align8;
    var dynLen := dynCount * 16;
    var symLen := symCount * SYM_SIZE;
    Eights(dynLen, 2 * dynCount);
    Eights(symLen, 3 * symCount);
    AlignExact(0);
    off := headerLen;
    AlignShift(off, interpLen);
    if interpLen > 0 {
      off := off + interpLen;
      off := Align8(off);
    }
    dynOff := off;
    AlignShift(off, dynLen);
    AlignExact(dynLen);
    if dynLen > 0 {
      off := off + dynLen;
      off := Align8(off);
    }
    symOff := off;
    AlignShift(off, symLen);
    AlignExact(symLen);
    if symLen > 0 {
      off := off + symLen;
      off := Align8(off);
    }
    strOff := off;
    AlignShift(off, strLen);
    off := off + strLen;
    off := Align8(off);
  }

  lemma AlignShift(a: nat, b: nat)
    requires a % 8 == 0
    ensures Align8(a + b) == a + Align8(b) && (a + Align8(b)) % 8 == 0
  {
    assert (a + b + 7) / 8 == a / 8 + (b + 7) / 8;
  }

  lemma AlignExact(n: nat)
    requires n % 8 == 0
    ensures Align8(n) == n
  {
  }

  lemma PlacedAsSpecified(l: Layout, headerLen: nat, dynOff: nat, symOff: nat, strOff: nat, total: nat)
    requires headerLen == EHDR_SIZE + PHDR_SIZE * PhdrCount(l)
    requires dynOff == headerLen + Align8(|InterpBytes(l)|) && symOff == dynOff + 16 * DynCount(l)
    requires strOff == symOff + SYM_SIZE * |SymNames(l)| && total == strOff + Align8(|StrTab(l)|)
    ensures headerLen == HeaderLen(l) && dynOff == DynOff(l) && symOff == SymOff(l) && strOff == StrOff(l)
    ensures total == Total(l)
  {
  }

  /** Copies the section contents to their places; the program headers come later. */
  method CopySections(buf: array<byte>, ghost a: seq<byte>, headerLen: nat, interp: seq<byte>, dynOff: nat,
                      dynData: array<byte>, symOff: nat, symData: array<byte>, strOff: nat, strBuf: seq<byte>)
    requires buf != dynData && buf != symData
    requires Filled(buf[..], a) && |a| <= headerLen
    requires dynOff == headerLen + |Pad8(interp)| && symOff == dynOff + dynData.Length
    requires strOff == symOff + symData.Length && buf.Length == strOff + |Pad8(strBuf)|
    modifies buf
    ensures buf[..] == a + Zeros(headerLen - |a|) + (Pad8(interp) + dynData[..] + symData[..] + Pad8(strBuf))
  {
    ghost var b, d, e := Zeros(headerLen - |a|), dynData[..], symData[..];
    FilledZeros(buf[..], a, |b|);
    WritePadded(buf, a + b, headerLen, interp);
    ghost var upToC := a + b + Pad8(interp);
    WriteNext(buf, upToC, dynOff, dynData[..]);
    WriteNext(buf, upToC + d, symOff, symData[..]);
    WritePadded(buf, upToC + d + e, strOff, strBuf);
    ImagePieces(a, b, Pad8(interp), d, e, Pad8(strBuf));
    assert buf[..] == upToC + d + e + Pad8(strBuf) + Zeros(0);
  }

  method WritePadded(b: array<byte>, ghost done: seq<byte>, off: nat, chunk: seq<byte>)
    requires Filled(b[..], done) && off == |done| && off + |Pad8(chunk)| <= b.Length
    modifies b
    ensures Filled(b[..], done + Pad8(chunk))
  {
    WriteNext(b, done, off, chunk);
    ghost var pad := |Pad8(chunk)| - |chunk|;
    FilledZeros(b[..], done + chunk, pad);
    assert done + chunk + Zeros(pad) == done + Pad8(chunk);
  }

  lemma HeadersLast(s: seq<byte>, a: seq<byte>, b: seq<byte>, rest: seq<byte>)
    requires s == a + Zeros(|b|) + rest
    ensures Splice(s, |a|, b) == a + b + rest
  {
  }
}
