/** Stripping the section headers does not change the answers that both views can give. */
module SectionAgreement {
  import opened Bytes
  import opened Elf
  import opened Dyn
  import opened DynProperties
  import opened Detectors

  /** The same file after its section headers are gone. */
  function Stripped(f: ElfFile): ElfFile {
    f.(sections := NO_SECTIONS)
  }

  predicate AllNull(es: seq<DynEntry>) {
    forall i :: 0 <= i < |es| ==> es[i].tag == DT_NULL
  }

  /** The section view lists the dynamic entries of PT_DYNAMIC, followed by its terminators: it walks the whole
      section, while the program-header view stops at the first DT_NULL. */
  predicate SameEntries(f: ElfFile, raw: seq<byte>) {
    var n := |Dynamic(f, raw)|;
    && Dynamic(f, raw) <= f.sections.dynamic
    && AllNull(f.sections.dynamic[n..])
  }

  lemma TerminatorsKeepTags(a: seq<DynEntry>, all: seq<DynEntry>, tag: u64)
    requires a <= all && AllNull(all[|a|..]) && tag != DT_NULL
    ensures DynTag(all, tag) == DynTag(a, tag)
  {
    assert all == a + all[|a|..];
    DynTagConcat(a, all[|a|..], tag);
  }

  /** Verdicts that depend on dynamic entries alone survive stripping. */
  lemma VerdictsSurviveStripping(f: ElfFile, raw: seq<byte>)
    requires SameEntries(f, raw)
    ensures BindNowOf(Stripped(f), raw) == BindNowOf(f, raw)
    ensures Flags1(Stripped(f), raw) == Flags1(f, raw)
    ensures BindNow(Stripped(f), raw) == BindNow(f, raw)
    ensures RelroVerdict(Stripped(f), raw) == RelroVerdict(f, raw)
    ensures PieVerdict(Stripped(f), raw) == PieVerdict(f, raw)
    ensures Pic(Stripped(f), raw) == Pic(f, raw)
  {
    hide HasBit, DynTag, HasSegment, AllNull;
    var dyns := Dynamic(f, raw);
    TerminatorsKeepTags(dyns, f.sections.dynamic, DT_BIND_NOW);
    TerminatorsKeepTags(dyns, f.sections.dynamic, DT_FLAGS);
    TerminatorsKeepTags(dyns, f.sections.dynamic, DT_FLAGS_1);
    assert Dynamic(Stripped(f), raw) == dyns;
    NothingAnnounced();
    assert Flags1(Stripped(f), raw) == Flags1(f, raw);
  }

  lemma NothingAnnounced()
    ensures !AnnouncesNow([]) && DynTag([], DT_FLAGS_1) == None
  {
  }

  // ---- Strings -----------------------------------------------------------

  predicate Resolved(str: seq<byte>, e: DynEntry, tag: u64) {
    e.tag == tag && e.val < |str|
  }

  predicate AllTerminated(str: seq<byte>, dyns: seq<DynEntry>, tag: u64) {
    forall i :: 0 <= i < |dyns| && Resolved(str, dyns[i], tag) ==> Terminated(str, dyns[i].val)
  }

  predicate NoneTerminated(str: seq<byte>, dyns: seq<DynEntry>, tag: u64) {
    forall i :: 0 <= i < |dyns| && Resolved(str, dyns[i], tag) ==> !Terminated(str, dyns[i].val)
  }

  lemma TerminatedStep(str: seq<byte>, dyns: seq<DynEntry>, tag: u64)
    requires |dyns| > 0
    ensures AllTerminated(str, dyns, tag) <==>
            (Resolved(str, dyns[0], tag) ==> Terminated(str, dyns[0].val)) && AllTerminated(str, dyns[1..], tag)
    ensures NoneTerminated(str, dyns, tag) <==>
            (Resolved(str, dyns[0], tag) ==> !Terminated(str, dyns[0].val)) && NoneTerminated(str, dyns[1..], tag)
  {
    hide Terminated, Resolved;
    assert forall i :: 0 < i < |dyns| ==> dyns[i] == dyns[1..][i - 1];
    assert forall i :: 0 <= i < |dyns| - 1 ==> dyns[1..][i] == dyns[i + 1];
  }

  /** The section view lists the terminated strings among those the program headers give. */
  lemma {:induction false} SectionStringsCount(str: seq<byte>, dyns: seq<DynEntry>, tag: u64)
    ensures |SectionStrings(str, dyns, tag)| <= |StringsOf(str, dyns, tag)|
    ensures |SectionStrings(str, dyns, tag)| == |StringsOf(str, dyns, tag)| <==> AllTerminated(str, dyns, tag)
    ensures AllTerminated(str, dyns, tag) ==> SectionStrings(str, dyns, tag) == StringsOf(str, dyns, tag)
    ensures SectionStrings(str, dyns, tag) == [] <==> NoneTerminated(str, dyns, tag)
  {
    if dyns != [] {
      SectionStringsCount(str, dyns[1..], tag);
      TerminatedStep(str, dyns, tag);
    }
  }

  /** The table, empty when there is none. */
  function TableOrEmpty(table: Option<seq<byte>>): seq<byte> {
    if table.Some? then table.value else []
  }

  /** Both views hold the same entries and the same string table. */
  predicate SameStrings(f: ElfFile, raw: seq<byte>) {
    SameEntries(f, raw) && TableOrEmpty(DynamicStrings(f.progs, raw, Dynamic(f, raw))) == f.sections.dynstr
  }

  lemma {:induction false} NoTableNoStrings(dyns: seq<DynEntry>, tag: u64)
    ensures StringsOf([], dyns, tag) == []
  {
    if dyns != [] {
      NoTableNoStrings(dyns[1..], tag);
    }
  }

  lemma TerminatorsKeepStrings(str: seq<byte>, a: seq<DynEntry>, all: seq<DynEntry>, tag: u64)
    requires a <= all && AllNull(all[|a|..]) && tag != DT_NULL
    ensures StringsOf(str, all, tag) == StringsOf(str, a, tag)
  {
    assert all == a + all[|a|..];
    StringsOfConcat(str, a, all[|a|..], tag);
    NoStringsOf(str, all[|a|..], tag);
  }

  /** What the program headers give for a tag, in terms of the section's list. */
  lemma PhdrStrings(f: ElfFile, raw: seq<byte>, tag: u64)
    requires SameStrings(f, raw)
    ensures DynStringsPH(Stripped(f), raw, tag) == DynStringsPH(f, raw, tag)
    ensures tag != DT_NULL ==> DynStringsPH(f, raw, tag) == StringsOf(f.sections.dynstr, f.sections.dynamic, tag)
    ensures tag == DT_NULL ==> DynStringsPH(f, raw, tag) == []
  {
    hide Dynamic, DynamicStrings, StringsOf, AllNull;
    SameView(f, raw);
    var str, dyns := f.sections.dynstr, Dynamic(f, raw);
    NoTableNoStrings(dyns, tag);
    assert DynStringsPH(f, raw, tag) == StringsOf(str, dyns, tag);
    if tag != DT_NULL {
      TerminatorsKeepStrings(str, dyns, f.sections.dynamic, tag);
    } else {
      NeverNull(f, raw);
      assert forall i :: 0 <= i < |dyns| ==> dyns[i] in dyns;
      NoStringsOf(str, dyns, tag);
    }
  }

  lemma {:induction false} DynamicNeverNull(progs: seq<Prog>, cls: Class, order: ByteOrder, raw: seq<byte>)
    ensures forall e :: e in PtDynamic(progs, cls, order, raw) ==> e.tag != DT_NULL
  {
    if progs != [] {
      DynamicNeverNull(progs[1..], cls, order, raw);
      EntriesNeverNull(ReadSegment(raw, progs[0]).data, cls, order);
    }
  }

  lemma NeverNull(f: ElfFile, raw: seq<byte>)
    ensures forall e :: e in Dynamic(f, raw) ==> e.tag != DT_NULL
  {
    DynamicNeverNull(f.progs, f.cls, f.order, raw);
  }

  /** The strings of a tag are the same with and without section headers if and only if none of its in-range
      strings is terminated in the table, or all are; a terminator names no string, so there only none will do. */
  lemma StringsSurviveStripping(f: ElfFile, raw: seq<byte>, tag: u64)
    requires SameStrings(f, raw)
    ensures DynamicStringsFor(Stripped(f), raw, tag) == DynamicStringsFor(f, raw, tag) <==>
            || NoneTerminated(f.sections.dynstr, f.sections.dynamic, tag)
            || (tag != DT_NULL && AllTerminated(f.sections.dynstr, f.sections.dynamic, tag))
  {
    hide Dynamic, DynamicStrings, StringsOf, AllTerminated, NoneTerminated, SameStrings, DynStringsPH;
    SectionStringsCount(f.sections.dynstr, f.sections.dynamic, tag);
    PhdrStrings(f, raw, tag);
    assert SectionStrings([], [], tag) == [];
  }

  lemma SameView(f: ElfFile, raw: seq<byte>)
    ensures Dynamic(Stripped(f), raw) == Dynamic(f, raw)
  {
  }

  /** A table that ends with a zero byte, as the gABI requires, terminates every string. */
  lemma ZeroEndTerminates(str: seq<byte>, dyns: seq<DynEntry>, tag: u64)
    requires |str| > 0 && str[|str| - 1] == 0
    ensures AllTerminated(str, dyns, tag)
  {
    forall i | 0 <= i < |dyns| && Resolved(str, dyns[i], tag)
      ensures Terminated(str, dyns[i].val)
    {
      var s := str[dyns[i].val..];
      assert s[|s| - 1] == 0;
    }
  }

  // ---- Tables where the views differ -------------------------------------

  /** A short string, its terminator, and a string that runs to the end of the table. */
  predicate HalfTerminated(str: seq<byte>) {
    2 < |str| < 100 && str[0] != 0 && str[1] == 0 && forall i :: 2 <= i < |str| ==> str[i] != 0
  }

  /** Both strings under one tag, and where the table is. */
  function TwoEntries(tag: u64, str: seq<byte>): seq<DynEntry>
    requires |str| < 100
  {
    [DynEntry(tag, 0), DynEntry(tag, 2), DynEntry(DT_STRTAB, 0x1050), DynEntry(DT_STRSZ, |str|)]
  }

  const STOP := DynEntry(DT_NULL, 0)

  /** The four entries and their terminator, then the string table. */
  function TwoRaw(tag: u64, str: seq<byte>): seq<byte>
    requires |str| < 100
  {
    EntriesBytes(TwoEntries(tag, str), Elf64, LittleEndian) + EntryBytes(STOP, Elf64, LittleEndian) + str
  }

  function TwoLoad(str: seq<byte>): Prog
    requires |str| < 100
  {
    Prog(PT_LOAD, PF_R, 0, 0x1000, 80 + |str|, 80 + |str|)
  }

  function TwoFile(tag: u64, str: seq<byte>): ElfFile
    requires |str| < 100
  {
    ElfFile(Elf64, LittleEndian, ET_DYN, EM_X86_64, [TwoLoad(str), Prog(PT_DYNAMIC, PF_R, 0, 0x1000, 80, 80)],
            Sections(TwoEntries(tag, str) + [STOP], str, None, None, None, false))
  }

  predicate NamesStrings(tag: u64) {
    tag in {DT_NEEDED, DT_RPATH, DT_RUNPATH}
  }

  lemma TwoParsed(tag: u64, str: seq<byte>)
    requires NamesStrings(tag) && |str| < 100
    ensures |TwoRaw(tag, str)| == 80 + |str| && TwoRaw(tag, str)[80..80 + |str|] == str
    ensures DynEntries(TwoRaw(tag, str)[..80], Elf64, LittleEndian) == TwoEntries(tag, str)
  {
    Pow256Values();
    var es := TwoEntries(tag, str);
    EntriesRoundTrip(es, STOP, [], Elf64, LittleEndian);
    hide EntriesBytes, EntryBytes, DynEntries;
    var b := EntriesBytes(es, Elf64, LittleEndian) + EntryBytes(STOP, Elf64, LittleEndian);
    assert b + [] == b == TwoRaw(tag, str)[..80];
  }

  lemma TwoDynamic(tag: u64, str: seq<byte>)
    requires NamesStrings(tag) && |str| < 100
    ensures Dynamic(TwoFile(tag, str), TwoRaw(tag, str)) == TwoEntries(tag, str)
  {
    TwoParsed(tag, str);
    var f, raw := TwoFile(tag, str), TwoRaw(tag, str);
    var dyn := Prog(PT_DYNAMIC, PF_R, 0, 0x1000, 80, 80);
    hide DynEntries, TwoRaw, TwoEntries;
    assert raw[0..80] == raw[..80];
    assert ReadSegment(raw, dyn) == Read(raw[..80], Full);
    assert f.progs[1..] == [dyn] && [dyn][1..] == [];
    assert PtDynamic([], Elf64, LittleEndian, raw) == [];
    assert PtDynamic([dyn], Elf64, LittleEndian, raw) == TwoEntries(tag, str);
  }

  lemma TwoTags(tag: u64, str: seq<byte>)
    requires NamesStrings(tag) && |str| < 100
    ensures DynTag(TwoEntries(tag, str), DT_STRTAB) == Some(0x1050)
    ensures DynTag(TwoEntries(tag, str), DT_STRSZ) == Some(|str|)
  {
    DynTagFirst(TwoEntries(tag, str), DT_STRTAB, 2);
    DynTagFirst(TwoEntries(tag, str), DT_STRSZ, 3);
  }

  lemma TwoTable(progs: seq<Prog>, tag: u64, str: seq<byte>)
    requires NamesStrings(tag) && 0 < |str| < 100 && |progs| > 0 && progs[0] == TwoLoad(str)
    ensures DynamicStrings(progs, TwoRaw(tag, str), TwoEntries(tag, str)) == Some(str)
  {
    hide TwoRaw, TwoEntries, DynTag, VaddrToFileOffset, DynamicStrings;
    TwoParsed(tag, str);
    TwoTags(tag, str);
    TwoOffset(progs, str);
    StringsAt(progs, TwoRaw(tag, str), TwoEntries(tag, str), 0x1050, 80, str);
  }

  lemma TwoOffset(progs: seq<Prog>, str: seq<byte>)
    requires 0 < |str| < 100 && |progs| > 0 && progs[0] == TwoLoad(str)
    ensures VaddrToFileOffset(progs, 0x1050) == Some(80)
  {
    CoversExactly(progs[0], 0x1050);
    assert CoveringLoad(progs, 0x1050) == Some(progs[0]);
    OffsetInSegment(progs, 0x1050);
  }

  lemma HalfTerminatedStrings(str: seq<byte>)
    requires HalfTerminated(str)
    ensures CstrAt(str, 0) == Some(Text(str[..1])) && Terminated(str, 0)
    ensures CstrAt(str, 2) == Some(Text(str[2..])) && !Terminated(str, 2)
  {
    assert str[0..] == str && IndexOfZero(str) == 1 && str[0..1] == str[..1];
    var rest := str[2..];
    assert forall i :: 0 <= i < |rest| ==> rest[i] == str[i + 2];
    assert IndexOfZero(rest) == |rest|;
    assert str[2..2 + |rest|] == rest;
  }

  lemma TwoStrings(tag: u64, str: seq<byte>)
    requires NamesStrings(tag) && HalfTerminated(str)
    ensures StringsOf(str, TwoEntries(tag, str) + [STOP], tag) == [Text(str[..1]), Text(str[2..])]
    ensures SectionStrings(str, TwoEntries(tag, str) + [STOP], tag) == [Text(str[..1])]
  {
    HalfTerminatedStrings(str);
    hide CstrAt, Terminated, Text;
    var es := TwoEntries(tag, str) + [STOP];
    var two, three, four := [es[2], es[3], es[4]], [es[3], es[4]], [es[4]];
    assert es[1..] == [es[1]] + two && es[1..][1..] == two;
    assert two[1..] == three && three[1..] == four && four[1..] == [];
    assert StringsOf(str, [], tag) == [] && SectionStrings(str, [], tag) == [];
    assert StringsOf(str, four, tag) == [] && SectionStrings(str, four, tag) == [];
    assert StringsOf(str, three, tag) == [] && SectionStrings(str, three, tag) == [];
    assert StringsOf(str, two, tag) == [] && SectionStrings(str, two, tag) == [];
  }

  /** Both views of these files hold the same entries and table, yet one string more is listed without section
      headers. */
  lemma StrippingAddsString(tag: u64, str: seq<byte>)
    requires NamesStrings(tag) && HalfTerminated(str)
    ensures var f, raw := TwoFile(tag, str), TwoRaw(tag, str);
            && SameStrings(f, raw)
            && DynamicStringsFor(f, raw, tag) == [Text(str[..1])]
            && DynamicStringsFor(Stripped(f), raw, tag) == [Text(str[..1]), Text(str[2..])]
  {
    hide Dynamic, DynamicStrings, StringsOf, TwoRaw, TwoEntries, DynStringsPH, SectionStrings, Text;
    var f, raw := TwoFile(tag, str), TwoRaw(tag, str);
    TwoDynamic(tag, str);
    TwoTable(f.progs, tag, str);
    TwoStrings(tag, str);
    assert (TwoEntries(tag, str) + [STOP])[|TwoEntries(tag, str)|..] == [STOP];
    PhdrStrings(f, raw, tag);
    NoSections(tag);
  }

  lemma NoSections(tag: u64)
    ensures SectionStrings([], [], tag) == []
  {
  }

  // ---- The libc decision -------------------------------------------------

  predicate NeedsLibc(str: seq<byte>, e: DynEntry) {
    e.tag == DT_NEEDED && e.val < |str| && IsLibcName(CstrAt(str, e.val).value)
  }

  /** The section view lists some needed library but no libc, which only an unterminated name reveals. */
  predicate LibcOnlyUnterminated(str: seq<byte>, dyns: seq<DynEntry>) {
    && !NoneTerminated(str, dyns, DT_NEEDED)
    && (forall i :: 0 <= i < |dyns| && NeedsLibc(str, dyns[i]) ==> !Terminated(str, dyns[i].val))
    && (exists i :: 0 <= i < |dyns| && NeedsLibc(str, dyns[i]))
  }

  lemma {:induction false} SomeLibcInStrings(str: seq<byte>, dyns: seq<DynEntry>)
    ensures SomeLibc(StringsOf(str, dyns, DT_NEEDED)) <==> exists i :: 0 <= i < |dyns| && NeedsLibc(str, dyns[i])
    ensures SomeLibc(SectionStrings(str, dyns, DT_NEEDED)) <==>
            exists i :: 0 <= i < |dyns| && NeedsLibc(str, dyns[i]) && Terminated(str, dyns[i].val)
  {
    if dyns != [] {
      SomeLibcInStrings(str, dyns[1..]);
      hide IsLibcName, Terminated, CstrAt;
      assert CstrAt(str, dyns[0].val).Some? <==> dyns[0].val < |str| by {
        InRange(str, dyns[0].val);
      }
      TerminatedInRange(str, dyns[0].val);
      SomeLibcHead(str, dyns);
    }
  }

  lemma InRange(str: seq<byte>, off: u64)
    ensures CstrAt(str, off).Some? <==> off < |str|
  {
  }

  lemma TerminatedInRange(str: seq<byte>, off: u64)
    ensures Terminated(str, off) ==> off < |str|
  {
  }

  lemma SomeLibcHead(str: seq<byte>, dyns: seq<DynEntry>)
    requires dyns != [] && (CstrAt(str, dyns[0].val).Some? <==> dyns[0].val < |str|)
    requires Terminated(str, dyns[0].val) ==> dyns[0].val < |str|
    ensures SomeLibc(StringsOf(str, dyns, DT_NEEDED)) <==>
            NeedsLibc(str, dyns[0]) || SomeLibc(StringsOf(str, dyns[1..], DT_NEEDED))
    ensures SomeLibc(SectionStrings(str, dyns, DT_NEEDED)) <==>
            (NeedsLibc(str, dyns[0]) && Terminated(str, dyns[0].val)) ||
            SomeLibc(SectionStrings(str, dyns[1..], DT_NEEDED))
  {
    hide IsLibcName, Terminated, CstrAt;
    if dyns[0].tag == DT_NEEDED && dyns[0].val < |str| {
      SomeLibcCons(CstrAt(str, dyns[0].val).value, StringsOf(str, dyns[1..], DT_NEEDED));
      SomeLibcCons(CstrAt(str, dyns[0].val).value, SectionStrings(str, dyns[1..], DT_NEEDED));
    }
  }

  lemma SomeLibcCons(n: string, rest: seq<string>)
    ensures SomeLibc([n] + rest) <==> IsLibcName(n) || SomeLibc(rest)
  {
    hide IsLibcName;
    var all := [n] + rest;
    assert forall i :: 0 <= i < |rest| ==> all[i + 1] == rest[i];
    assert all[0] == n;
  }

  /** The libc decision survives stripping if and only if the libc is not named by unterminated strings
      alone while another library is named by a terminated one. */
  lemma LibcSurvivesStripping(f: ElfFile, raw: seq<byte>)
    requires SameStrings(f, raw)
    ensures NoLibc(Stripped(f), raw) == NoLibc(f, raw) <==>
            !HasSegment(f.progs, PT_DYNAMIC) || !LibcOnlyUnterminated(f.sections.dynstr, f.sections.dynamic)
  {
    var str, dyns := f.sections.dynstr, f.sections.dynamic;
    hide Dynamic, DynamicStrings, StringsOf, SectionStrings, Terminated, NoneTerminated, SomeLibc, NeedsLibc,
      DynStringsPH, HasSegment;
    PhdrStrings(f, raw, DT_NEEDED);
    NoSections(DT_NEEDED);
    SectionStringsCount(str, dyns, DT_NEEDED);
    SomeLibcInStrings(str, dyns);
  }

  /** One library m, and the libc as the last string of the table, without its terminator. */
  const HIDDEN_LIBC: seq<byte> := [0x6d, 0, 0x6c, 0x69, 0x62, 0x63, 0x2e, 0x73, 0x6f, 0x2e, 0x36]

  /** With section headers this file needs no libc, without them it does. */
  lemma StrippingRevealsLibc()
    ensures var f, raw := TwoFile(DT_NEEDED, HIDDEN_LIBC), TwoRaw(DT_NEEDED, HIDDEN_LIBC);
            SameStrings(f, raw) && NoLibc(f, raw) && !NoLibc(Stripped(f), raw)
  {
    hide IsLibcName, DynamicStringsFor, TwoRaw, SameStrings, Text;
    StrippingAddsString(DT_NEEDED, HIDDEN_LIBC);
    HiddenText();
    NamesOfLibc();
    var f, raw := TwoFile(DT_NEEDED, HIDDEN_LIBC), TwoRaw(DT_NEEDED, HIDDEN_LIBC);
    assert f.progs[1].typ == PT_DYNAMIC && Stripped(f).progs == f.progs;
    assert DynamicStringsFor(Stripped(f), raw, DT_NEEDED)[1] == "libc.so.6";
  }

  lemma HiddenText()
    ensures Text(HIDDEN_LIBC[..1]) == "m" && Text(HIDDEN_LIBC[2..]) == "libc.so.6"
  {
  }

  lemma NamesOfLibc()
    ensures IsLibcName("libc.so.6") && !IsLibcName("m")
  {
    assert "m"[0..] == "m" && "m"[1..] == "";
    assert "libc.so" <= "libc.so.6";
  }
}
