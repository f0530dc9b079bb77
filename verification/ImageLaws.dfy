/** What the headers of a generated image say, in terms of its bytes and numbers (System V gABI, chapter 4
    "ELF Header"; chapter 5 "Program Header"). */
module ImageLaws {
  import opened Bytes
  import opened Elf
  import opened Dyn
  import opened ElfGen
  import opened ImageReading

  // ---- Program headers ---------------------------------------------------

  function Types(progs: seq<Prog>): seq<nat> {
    seq(|progs|, i requires 0 <= i < |progs| => progs[i].typ)
  }

  function TypeIf(present: bool, typ: nat): seq<nat> {
    if present then [typ] else []
  }

  lemma TypesConcat(a: seq<Prog>, b: seq<Prog>)
    ensures Types(a + b) == Types(a) + Types(b)
  {
  }

  lemma TypesIf(present: bool, p: Prog)
    ensures Types(ProgIf(present, p)) == TypeIf(present, p.typ)
  {
  }

  lemma ListTypes(l: Layout, interpOff: nat, interpLen: nat, dynOff: nat, dynLen: nat, total: nat)
    ensures Types(ProgList(l, interpOff, interpLen, dynOff, dynLen, total)) ==
            [1] + TypeIf(interpLen > 0, 3) + TypeIf(dynLen > 0, 2) + TypeIf(l.relro, 0x6474_e552) +
            TypeIf(l.retguard, 0x6788_fc60) + TypeIf(!l.noStack, 0x6474_e551)
  {
    hide Types, TypeIf, StackFlags, ProgIf;
    var load := Segment(PT_LOAD, PF_R + PF_X, 0, BASE_VADDR, total);
    var interp := Segment(PT_INTERP, PF_R, interpOff, Vaddr(interpOff), interpLen);
    var dyn := Segment(PT_DYNAMIC, PF_R + PF_W, dynOff, Vaddr(dynOff), dynLen);
    var a, b, c := [load], ProgIf(interpLen > 0, interp), ProgIf(dynLen > 0, dyn);
    TypesOfOne(load);
    TypesIf(interpLen > 0, interp);
    TypesIf(dynLen > 0, dyn);
    TypesConcat(a, b);
    TypesConcat(a + b, c);
    TypesConcat(a + b + c, MarkerList(l, total));
    MarkerTypes(l, total);
    Reassociated([1] + TypeIf(interpLen > 0, 3) + TypeIf(dynLen > 0, 2), TypeIf(l.relro, 0x6474_e552),
                 TypeIf(l.retguard, 0x6788_fc60), TypeIf(!l.noStack, 0x6474_e551));
  }

  lemma MarkerTypes(l: Layout, total: nat)
    ensures Types(MarkerList(l, total)) ==
            TypeIf(l.relro, 0x6474_e552) + TypeIf(l.retguard, 0x6788_fc60) + TypeIf(!l.noStack, 0x6474_e551)
  {
    hide Types, TypeIf, StackFlags, ProgIf;
    var relro := Segment(PT_GNU_RELRO, PF_R, 0, BASE_VADDR, total);
    var retguard := Segment(PT_OHOS_RETGUARD, PF_R, 0, BASE_VADDR, 0);
    var stack := Segment(PT_GNU_STACK, StackFlags(l), 0, 0, 0);
    TypesIf(l.relro, relro);
    TypesIf(l.retguard, retguard);
    TypesIf(!l.noStack, stack);
    TypesConcat(ProgIf(l.relro, relro), ProgIf(l.retguard, retguard));
    TypesConcat(ProgIf(l.relro, relro) + ProgIf(l.retguard, retguard), ProgIf(!l.noStack, stack));
  }

  lemma TypesOfOne(p: Prog)
    ensures Types([p]) == [p.typ]
  {
  }

  lemma Reassociated(a: seq<nat>, b: seq<nat>, c: seq<nat>, d: seq<nat>)
    ensures a + (b + c + d) == a + b + c + d
  {
  }

  /** Where a segment lies in the file and in memory. */
  predicate Spans(p: Prog, off: nat, vaddr: nat, size: nat) {
    p.off == off && p.vaddr == vaddr && p.filesz == size && p.memsz == size
  }

  lemma MarkerMember(l: Layout, total: nat, p: Prog)
    requires p in MarkerList(l, total) && total < TWO_TO_63
    ensures p.typ !in {1, 2, 3}
    ensures p.typ == 0x6474_e552 ==> Spans(p, 0, 0x40_0000, total) && p.flags == 4
    ensures p.typ == 0x6788_fc60 ==> Spans(p, 0, 0x40_0000, 0) && p.flags == 4
    ensures p.typ == 0x6474_e551 ==> Spans(p, 0, 0, 0) && p.flags == if l.gnuStackX then 7 else 6
  {
  }

  lemma ListMember(l: Layout, interpOff: nat, interpLen: nat, dynOff: nat, dynLen: nat, total: nat, p: Prog)
    requires p in ProgList(l, interpOff, interpLen, dynOff, dynLen, total)
    requires interpOff + interpLen < TWO_TO_63 && dynOff + dynLen < TWO_TO_63 && total < TWO_TO_63
    ensures p.typ == 1 ==> Spans(p, 0, 0x40_0000, total) && p.flags == 5
    ensures p.typ == 3 ==> Spans(p, interpOff, 0x40_0000 + interpOff, interpLen) && p.flags == 4 && interpLen > 0
    ensures p.typ == 2 ==> Spans(p, dynOff, 0x40_0000 + dynOff, dynLen) && p.flags == 6 && dynLen > 0
    ensures p.typ == 0x6474_e552 ==> Spans(p, 0, 0x40_0000, total) && p.flags == 4
    ensures p.typ == 0x6788_fc60 ==> Spans(p, 0, 0x40_0000, 0) && p.flags == 4
    ensures p.typ == 0x6474_e551 ==> Spans(p, 0, 0, 0) && p.flags == if l.gnuStackX then 7 else 6
  {
    hide MarkerList;
    if p in MarkerList(l, total) {
      MarkerMember(l, total, p);
    }
  }

  lemma InterpInImage(l: Layout, raw: seq<byte>)
    requires Holds(raw, l)
    ensures HeaderLen(l) + |InterpBytes(l)| <= |raw| == Total(l)
    ensures raw[HeaderLen(l)..HeaderLen(l) + |InterpBytes(l)|] == InterpBytes(l)
    ensures |InterpBytes(l)| > 0 ==>
              && |InterpBytes(l)| == 28 && Text(InterpBytes(l)[..27]) == "/lib64/ld-linux-x86-64.so.2"
              && InterpBytes(l)[27] == 0
  {
    hide DynBytes, Progs, StrTab, Syms, Pad8, EhdrBytes, PhdrsBytes, SymTableBytes, DynOff, HeaderLen, SymOff, StrOff,
      Total;
  }

  lemma DynSize(l: Layout)
    ensures DynCount(l) > 0 ==> DynCount(l) == |DynTable(l)| + 1
  {
    hide Template, DynTable;
    TemplateMatchesTable(l);
  }

  /** Opening an image gives the type and machine of the layout and one header of each kind it asks for, in order. */
  lemma HeaderMeaning(l: Layout)
    requires Buildable(l)
    ensures NewFile(Image(l)).Some?
    ensures var f := NewFile(Image(l)).value;
            && f.typ == (if l.pie || l.etDyn then 3 else 2)
            && f.machine == (if l.machine == 0 then 62 else l.machine)
            && Types(f.progs) ==
               [1] + TypeIf(l.interp || l.pie, 3) + TypeIf(Dynamic(f, Image(l)) != [], 2) +
               TypeIf(l.relro, 0x6474_e552) + TypeIf(l.retguard, 0x6788_fc60) + TypeIf(!l.noStack, 0x6474_e551)
  {
    hide Image, NewFile, Types, TypeIf, Dynamic, ProgList, HeaderLen, DynOff, Total, BytesOf, DynCount, Buildable,
      DynTable;
    HeaderRoundTrip(l);
    DynamicRoundTrip(l);
    TemplateMatchesTable(l);
    DynPresence(l);
    ListTypes(l, HeaderLen(l), |InterpBytes(l)|, DynOff(l), 16 * DynCount(l), Total(l));
  }

  /** A PT_INTERP header points at the path of the interpreter with its terminator, and its address translates to its
      offset. */
  lemma InterpreterMeaning(l: Layout, f: ElfFile, p: Prog)
    requires Buildable(l) && NewFile(Image(l)) == Some(f) && p in f.progs && p.typ == 3
    ensures var raw := Image(l);
            && Spans(p, p.off, 0x40_0000 + p.off, 28) && p.flags == 4 && p.off + 28 <= |raw|
            && Text(raw[p.off..p.off + 27]) == "/lib64/ld-linux-x86-64.so.2" && raw[p.off + 27] == 0
            && VaddrToFileOffset(f.progs, p.vaddr) == Some(p.off)
  {
    hide NewFile, Image, Progs, SlicesOf, VaddrToFileOffset, HeaderLen, DynOff, Total, DynCount, InterpBytes,
      DynBytes, ProgList, Text, Holds;
    HeaderRoundTrip(l);
    ImageHolds(l);
    InterpInImage(l, Image(l));
    DynInImage(l, Image(l));
    BuildableTotal(l);
    MemberOfImage(l, p);
    AddressRoundTrip(l, HeaderLen(l));
    SubSlice(Image(l), HeaderLen(l), 28, 0, 27);
  }

  /** A PT_DYNAMIC header points at the dynamic entries with their terminator, and its address translates to its
      offset. */
  lemma DynamicMeaning(l: Layout, f: ElfFile, p: Prog)
    requires Buildable(l) && NewFile(Image(l)) == Some(f) && p in f.progs && p.typ == 2
    ensures var raw := Image(l);
            && Spans(p, p.off, 0x40_0000 + p.off, 16 * |Dynamic(f, raw)| + 16) && p.flags == 6
            && p.off + p.filesz <= |raw|
            && DynEntries(raw[p.off..p.off + p.filesz], Elf64, LittleEndian) == Dynamic(f, raw)
            && VaddrToFileOffset(f.progs, p.vaddr) == Some(p.off)
  {
    hide NewFile, Image, Progs, SlicesOf, VaddrToFileOffset, DynEntries, Dynamic, HeaderLen, DynOff, Total, DynCount,
      InterpBytes, DynBytes, DynTable, ProgList, Holds;
    HeaderRoundTrip(l);
    ImageHolds(l);
    InterpInImage(l, Image(l));
    DynInImage(l, Image(l));
    DynamicRoundTrip(l);
    DynSize(l);
    BuildableTotal(l);
    MemberOfImage(l, p);
    AddressRoundTrip(l, DynOff(l));
    DynPresence(l);
    DynBytesRoundTrip(l);
  }

  /** The load segment and RELRO cover exactly the image at 0x400000, and the markers are empty. */
  lemma SegmentsMeaning(l: Layout, f: ElfFile, p: Prog)
    requires Buildable(l) && NewFile(Image(l)) == Some(f) && p in f.progs
    ensures p.typ == 1 ==> Spans(p, 0, 0x40_0000, |Image(l)|) && p.flags == 5
    ensures p.typ == 0x6474_e552 ==> Spans(p, 0, 0x40_0000, |Image(l)|) && p.flags == 4
    ensures p.typ == 0x6788_fc60 ==> Spans(p, 0, 0x40_0000, 0) && p.flags == 4
    ensures p.typ == 0x6474_e551 ==> Spans(p, 0, 0, 0) && p.flags == if l.gnuStackX then 7 else 6
  {
    hide NewFile, Image, Progs, SlicesOf, HeaderLen, DynOff, Total, DynCount, InterpBytes, DynBytes, ProgList, Holds;
    HeaderRoundTrip(l);
    ImageHolds(l);
    InterpInImage(l, Image(l));
    DynInImage(l, Image(l));
    BuildableTotal(l);
    MemberOfImage(l, p);
  }

  lemma MemberOfImage(l: Layout, p: Prog)
    requires p in Progs(l)
    requires HeaderLen(l) + |InterpBytes(l)| <= Total(l) && DynOff(l) + 16 * DynCount(l) <= Total(l) < TWO_TO_63
    ensures p.typ == 1 ==> Spans(p, 0, 0x40_0000, Total(l)) && p.flags == 5
    ensures p.typ == 3 ==>
              && Spans(p, HeaderLen(l), 0x40_0000 + HeaderLen(l), |InterpBytes(l)|) && p.flags == 4
              && |InterpBytes(l)| > 0
    ensures p.typ == 2 ==>
              Spans(p, DynOff(l), 0x40_0000 + DynOff(l), 16 * DynCount(l)) && p.flags == 6 && DynCount(l) > 0
    ensures p.typ == 0x6474_e552 ==> Spans(p, 0, 0x40_0000, Total(l)) && p.flags == 4
    ensures p.typ == 0x6788_fc60 ==> Spans(p, 0, 0x40_0000, 0) && p.flags == 4
    ensures p.typ == 0x6474_e551 ==> Spans(p, 0, 0, 0) && p.flags == if l.gnuStackX then 7 else 6
  {
    hide ProgList, HeaderLen, DynOff, Total, DynCount, InterpBytes;
    ListMember(l, HeaderLen(l), |InterpBytes(l)|, DynOff(l), 16 * DynCount(l), Total(l), p);
  }

  // ---- Header words ------------------------------------------------------

  /** The identification bytes and every header word, by its place in the file. */
  lemma HeaderWordsMeaning(l: Layout)
    ensures var raw := Image(l);
            && |raw| >= 64
            && raw[..16] == [0x7f, 0x45, 0x4c, 0x46, 2, 1, 1, 0, 0, 0, 0, 0, 0, 0, 0, 0]
            && Word(raw, 16, 2) == (if l.pie || l.etDyn then 3 else 2)
            && Word(raw, 18, 2) == (if l.machine == 0 then 62 else l.machine)
            && Word(raw, 20, 4) == 1 && Word(raw, 24, 8) == 0x40_0000 && Word(raw, 32, 8) == 64
            && Word(raw, 40, 8) == 0 && Word(raw, 48, 4) == 64 && Word(raw, 52, 2) == 64
            && Word(raw, 54, 2) == 56 && Word(raw, 56, 2) == |Progs(l)| && Word(raw, 58, 2) == 0
            && Word(raw, 60, 2) == 0 && Word(raw, 62, 2) == 0
  {
    hide Image, Word, Progs, PhdrsBytes, EhdrBytes, Holds;
    ImageHolds(l);
    HeaderSlices(l, Image(l));
    EhdrWords(l, Image(l));
  }

  lemma {:induction false} PhdrSlice(b: seq<byte>, ps: seq<Prog>, k: nat)
    requires b == PhdrsBytes(ps) && k < |ps|
    ensures b[PHDR_SIZE * k..PHDR_SIZE * k + PHDR_SIZE] == PhdrBytes(ps[k])
    decreases k
  {
    hide PhdrBytes;
    if k > 0 {
      var rest := b[PHDR_SIZE..];
      assert rest == PhdrsBytes(ps[1..]);
      PhdrSlice(rest, ps[1..], k - 1);
      assert rest[PHDR_SIZE * (k - 1)..PHDR_SIZE * k] == b[PHDR_SIZE * k..PHDR_SIZE * k + PHDR_SIZE];
    }
  }

  lemma PhdrWords(raw: seq<byte>, at: nat, p: Prog)
    requires at + 56 <= |raw| && raw[at..at + 56] == PhdrBytes(p)
    ensures Word(raw, at, 4) == p.typ && Word(raw, at + 4, 4) == p.flags && Word(raw, at + 8, 8) == p.off
    ensures Word(raw, at + 16, 8) == p.vaddr && Word(raw, at + 24, 8) == p.vaddr
    ensures Word(raw, at + 32, 8) == p.filesz && Word(raw, at + 40, 8) == p.memsz && Word(raw, at + 48, 8) == 0x1000
  {
    PhdrFields(p);
    Pow256Values();
    hide Le, Word, PhdrBytes, Pow256;
    SubSlice(raw, at, 56, 0, 4);
    WordInSlice(raw, at, 4, p.typ);
    SubSlice(raw, at, 56, 4, 8);
    WordInSlice(raw, at + 4, 4, p.flags);
    SubSlice(raw, at, 56, 8, 16);
    WordInSlice(raw, at + 8, 8, p.off);
    SubSlice(raw, at, 56, 16, 24);
    WordInSlice(raw, at + 16, 8, p.vaddr);
    SubSlice(raw, at, 56, 24, 32);
    WordInSlice(raw, at + 24, 8, p.vaddr);
    SubSlice(raw, at, 56, 32, 40);
    WordInSlice(raw, at + 32, 8, p.filesz);
    SubSlice(raw, at, 56, 40, 48);
    WordInSlice(raw, at + 40, 8, p.memsz);
    SubSlice(raw, at, 56, 48, 56);
    assert PhdrBytes(p)[48..] == PhdrBytes(p)[48..56];
    WordInSlice(raw, at + 48, 8, 0x1000);
  }

  /** Program header `k` by its place in the file: type, flags, offset, address twice, both sizes, page alignment. */
  lemma PhdrWordsMeaning(l: Layout, k: nat)
    requires k < |Progs(l)|
    ensures 64 + 56 * k + 56 <= |Image(l)|
    ensures var raw, at, p := Image(l), 64 + 56 * k, Progs(l)[k];
            && Word(raw, at, 4) == p.typ && Word(raw, at + 4, 4) == p.flags && Word(raw, at + 8, 8) == p.off
            && Word(raw, at + 16, 8) == p.vaddr && Word(raw, at + 24, 8) == p.vaddr
            && Word(raw, at + 32, 8) == p.filesz && Word(raw, at + 40, 8) == p.memsz && Word(raw, at + 48, 8) == 0x1000
  {
    hide Image, Progs, PhdrBytes, PhdrsBytes, EhdrBytes, Holds, Word, SlicesOf;
    ImageHolds(l);
    HeaderSlices(l, Image(l));
    PhdrSlice(PhdrsBytes(Progs(l)), Progs(l), k);
    SubSlice(Image(l), 64, 56 * |Progs(l)|, 56 * k, 56 * k + 56);
    PhdrWords(Image(l), 64 + 56 * k, Progs(l)[k]);
  }
}
