/** The whole report on a file, with and without its section headers. */
module StrippedReport {
  import opened Bytes
  import opened Strings
  import opened Results
  import opened Elf
  import opened Dyn
  import opened ElfGen
  import opened Detectors
  import opened SectionAgreement
  import opened StrippedSymbols
  import opened Report
  import opened Compliance
  import Rpath
  import Fortify
  import StrippedExamples

  // ---- AArch64 mechanisms ------------------------------------------------

  /** Retguard survives unless only the section marks it. */
  lemma RetguardSurvivesStripping(f: ElfFile)
    ensures OhosRetguard(Stripped(f)) == OhosRetguard(f) <==>
            f.machine != EM_AARCH64 || !f.sections.ohosRandomdata || HasSegment(f.progs, PT_OHOS_RETGUARD)
  {
    hide HasSegment;
  }

  predicate TextReadable(f: ElfFile) {
    f.sections.text.Some? && f.sections.text.value.Some?
  }

  predicate PartAt(data: seq<byte>, off: nat, part: seq<byte>) {
    off + |part| <= |data| && data[off..off + |part|] == part
  }

  /** The bytes of .text lie in this executable segment, which can be read whole. */
  ghost predicate HoldsText(raw: seq<byte>, p: Prog, text: seq<byte>) {
    var r := ReadSegment(raw, p);
    && p.typ == PT_LOAD && HasBit(p.flags, PF_X) && r.status.Full?
    && exists off: nat :: PartAt(r.data, off, text)
  }

  /** A readable .text is loaded as code. */
  ghost predicate TextMapped(f: ElfFile, raw: seq<byte>) {
    TextReadable(f) ==> exists i :: 0 <= i < |f.progs| && HoldsText(raw, f.progs[i], f.sections.text.value.value)
  }

  ghost predicate SomeSegmentHasCode(f: ElfFile, raw: seq<byte>) {
    exists i :: 0 <= i < |f.progs| && SegmentHasCode(raw, f.progs[i])
  }

  lemma CodeInPart(data: seq<byte>, off: nat, text: seq<byte>)
    requires PartAt(data, off, text) && ContainsCode(text)
    ensures ContainsCode(data)
  {
    var i: nat :| CodeAt(text, i);
    assert forall k :: 0 <= k < |text| ==> text[k] == data[off + k];
    assert data[off + i..off + i + 4] == text[i..i + 4];
    assert CodeAt(data, off + i);
  }

  lemma TextCodeInSegment(f: ElfFile, raw: seq<byte>)
    requires TextMapped(f, raw) && TextReadable(f) && ContainsCode(f.sections.text.value.value)
    ensures SomeSegmentHasCode(f, raw)
  {
    hide ContainsCode, ReadSegment, HasBit;
    var text := f.sections.text.value.value;
    var i :| 0 <= i < |f.progs| && HoldsText(raw, f.progs[i], text);
    var data := ReadSegment(raw, f.progs[i]).data;
    var off: nat :| PartAt(data, off, text);
    CodeInPart(data, off, text);
    assert SegmentHasCode(raw, f.progs[i]);
  }

  /** A PAC verdict survives unless .text lacks the instruction and other executable bytes contain it. */
  lemma PacSurvivesStripping(f: ElfFile, raw: seq<byte>)
    requires TextMapped(f, raw)
    ensures PacCfiVerdict(Stripped(f), raw) == PacCfiVerdict(f, raw) <==>
            || f.machine != EM_AARCH64 || !TextReadable(f)
            || ContainsCode(f.sections.text.value.value)
            || !SomeSegmentHasCode(f, raw)
  {
    if TextReadable(f) && ContainsCode(f.sections.text.value.value) {
      TextCodeInSegment(f, raw);
    }
    hide ContainsCode, SegmentHasCode, HoldsText;
    assert SomeSegmentHasCode(Stripped(f), raw) == SomeSegmentHasCode(f, raw);
  }

  // ---- Static symbols ----------------------------------------------------

  /** The strip check itself changes exactly when there were static symbols. */
  lemma SymbolsSurviveStripping(f: ElfFile)
    ensures Symbols(Stripped(f)) == Symbols(f) <==> f.sections.symbols.None? || f.sections.symbols.value == []
  {
  }

  // ---- Paths -------------------------------------------------------------

  /** The room that the strings take in a joined text. */
  function Weight(parts: seq<string>): nat {
    if parts == [] then 0 else |parts[0]| + 1 + Weight(parts[1..])
  }

  lemma {:induction false} JoinWeight(parts: seq<string>)
    requires parts != []
    ensures |Join(parts)| + 1 == Weight(parts)
  {
    if |parts| > 1 {
      JoinWeight(parts[1..]);
    } else {
      assert Weight(parts[1..]) == 0;
    }
  }

  /** Every string that the section view leaves out makes the list heavier. */
  lemma {:induction false} SectionLighter(str: seq<byte>, dyns: seq<DynEntry>, tag: u64)
    ensures |SectionStrings(str, dyns, tag)| <= |StringsOf(str, dyns, tag)|
    ensures Weight(SectionStrings(str, dyns, tag)) + |StringsOf(str, dyns, tag)| <=
            Weight(StringsOf(str, dyns, tag)) + |SectionStrings(str, dyns, tag)|
  {
    if dyns != [] {
      SectionLighter(str, dyns[1..], tag);
      TerminatedInRange(str, dyns[0].val);
      hide CstrAt, Terminated;
      InRange(str, dyns[0].val);
    }
  }

  /** All or none of the strings of a tag end inside the table. */
  predicate Uniform(f: ElfFile, tag: u64) {
    || NoneTerminated(f.sections.dynstr, f.sections.dynamic, tag)
    || AllTerminated(f.sections.dynstr, f.sections.dynamic, tag)
  }

  /** Unless the strings are the same in both views, they are non-empty lists that join differently. */
  lemma PathsDiffer(f: ElfFile, raw: seq<byte>, tag: u64)
    requires SameStrings(f, raw) && tag != DT_NULL
    ensures Uniform(f, tag) ==> DynamicStringsFor(Stripped(f), raw, tag) == DynamicStringsFor(f, raw, tag)
    ensures var a, b := DynamicStringsFor(f, raw, tag), DynamicStringsFor(Stripped(f), raw, tag);
            !Uniform(f, tag) ==> a != [] && b != [] && Join(a) != Join(b)
  {
    hide SameStrings, StringsOf, SectionStrings, NoneTerminated, AllTerminated, DynStringsPH, Join, Weight;
    var str, dyns := f.sections.dynstr, f.sections.dynamic;
    StringsSurviveStripping(f, raw, tag);
    PhdrStrings(f, raw, tag);
    NoSections(tag);
    SectionStringsCount(str, dyns, tag);
    SectionLighter(str, dyns, tag);
    if !Uniform(f, tag) {
      JoinWeight(SectionStrings(str, dyns, tag));
      JoinWeight(StringsOf(str, dyns, tag));
    }
  }

  /** Both path results survive stripping if and only if the strings do. */
  lemma PathsSurviveStripping(f: ElfFile, raw: seq<byte>, stat: string -> Rpath.Stat)
    requires SameStrings(f, raw)
    ensures Rpath.RpathVerdict(stat, Stripped(f), raw) == Rpath.RpathVerdict(stat, f, raw) <==> Uniform(f, DT_RPATH)
    ensures Rpath.RunpathCheck(stat, Stripped(f), raw) == Rpath.RunpathCheck(stat, f, raw) <==> Uniform(f, DT_RUNPATH)
  {
    hide SameStrings, DynamicStringsFor, Uniform, Join, Rpath.RpathStrictVerdict, Rpath.RunpathVerdict;
    PathsDiffer(f, raw, DT_RPATH);
    PathsDiffer(f, raw, DT_RUNPATH);
    var a, b := DynamicStringsFor(f, raw, DT_RPATH), DynamicStringsFor(Stripped(f), raw, DT_RPATH);
    if !Uniform(f, DT_RPATH) && Rpath.RpathStrictVerdict(stat, b) == Rpath.RpathStrictVerdict(stat, a) {
      Rpath.StrictShowsPaths(stat, a, b);
    }
    var c, d := DynamicStringsFor(f, raw, DT_RUNPATH), DynamicStringsFor(Stripped(f), raw, DT_RUNPATH);
    if !Uniform(f, DT_RUNPATH) && Rpath.RunpathVerdict(stat, "RUNPATH", d) == Rpath.RunpathVerdict(stat, "RUNPATH", c) {
      Rpath.RunpathShowsPaths(stat, "RUNPATH", c, d);
    }
  }

  // ---- The linked mechanisms ---------------------------------------------

  /** Results that the three mechanisms can have by themselves, on one machine. */
  predicate OwnResults(c: Checks, aarch64: bool) {
    && Lookup(c, "canary") in {OkResult("Canary found"), BadResult("No canary found")}
    && Lookup(c, "ohos_retguard") in
         (if aarch64 then {OkResult("Retguard enabled"), BadResult("No retguard")} else {NaResult("N/A (not AArch64)")})
    && Lookup(c, "pac_cfi") in
         (if aarch64 then {OkResult("PAC CFI enabled"), BadResult("No PAC CFI")} else {NaResult("N/A (not AArch64)")})
  }

  predicate SameStack(c: Checks, d: Checks) {
    && Lookup(c, "canary") == Lookup(d, "canary") && Lookup(c, "ohos_retguard") == Lookup(d, "ohos_retguard")
    && Lookup(c, "pac_cfi") == Lookup(d, "pac_cfi")
  }

  /** A covered mechanism never shows one of their own good values. */
  lemma CoverDistinct(key: string)
    requires key in STACK_KEYS
    ensures var covered := OkResult("Covered by " + HeaderName(key));
            covered != OkResult("Canary found") && covered != OkResult("Retguard enabled") &&
            covered != OkResult("PAC CFI enabled")
  {
    var v := "Covered by " + HeaderName(key);
    assert v[0] == 'C' && v[1] == 'o';
    assert "Canary found"[1] == 'a' && "Retguard enabled"[0] == 'R' && "PAC CFI enabled"[0] == 'P';
  }

  /** Whether a mechanism passed by itself shows in the linked table. */
  lemma GoodTold(c: Checks, aarch64: bool, key: string)
    requires OwnResults(c, aarch64) && key in STACK_KEYS
    ensures IsGood(c, key) <==>
            Lookup(Linked(c), key) == OkResult(if key == "canary" then "Canary found"
                                               else if key == "ohos_retguard" then "Retguard enabled"
                                               else "PAC CFI enabled")
  {
    hide Linked, StackProtectionPassed, HeaderName;
    LinkingKeepsVerdict(c);
    KeysOfStack(key);
    if StackProtectionPassed(c) {
      LinkedValues(c, key);
      CoverDistinct(Winner(c));
    }
  }

  lemma KeysOfStack(key: string)
    requires key in STACK_KEYS
    ensures key in {"canary", "ohos_retguard", "pac_cfi"}
  {
  }

  /** So linking loses nothing: equal linked tables come from equal own results. */
  lemma LinkingTells(c: Checks, d: Checks, aarch64: bool)
    requires OwnResults(c, aarch64) && OwnResults(d, aarch64) && SameStack(Linked(c), Linked(d))
    ensures SameStack(c, d)
  {
    assert STACK_KEYS[0] == "canary" && STACK_KEYS[1] == "ohos_retguard" && STACK_KEYS[2] == "pac_cfi";
    hide Linked, Lookup;
    GoodTold(c, aarch64, "canary");
    GoodTold(d, aarch64, "canary");
    GoodTold(c, aarch64, "ohos_retguard");
    GoodTold(d, aarch64, "ohos_retguard");
    GoodTold(c, aarch64, "pac_cfi");
    GoodTold(d, aarch64, "pac_cfi");
  }

  lemma FirstAreOwn(f: ElfFile, raw: seq<byte>)
    requires Scannable(f, raw)
    ensures OwnResults(FirstChecks(f, raw), f.machine == EM_AARCH64)
  {
    hide FirstChecks, Lookup, Linked, FirstOccurrences, AdvertisedNames, SomeCanary, ContainsCode, HasSegment,
      Scannable;
    FirstLookups(f, raw);
  }

  // ---- The report --------------------------------------------------------

  /** When the whole report survives stripping. */
  ghost predicate ReportCovered(f: ElfFile, raw: seq<byte>, first: nat, n: nat)
    requires Scannable(f, raw) && SharedTable(f, raw, first, n)
  {
    && (CanaryListed(Listed(f, raw, first, n), ScannedStrings(f, raw)) ||
        SomeCanary(NamesOfSyms(f.sections.symbols)) ==>
          CanaryFunction(ScannedRecords(f, raw), ScannedStrings(f, raw)))
    && (f.machine != EM_AARCH64 || !f.sections.ohosRandomdata || HasSegment(f.progs, PT_OHOS_RETGUARD))
    && (f.machine != EM_AARCH64 || !TextReadable(f) || ContainsCode(f.sections.text.value.value) ||
        !SomeSegmentHasCode(f, raw))
    && Uniform(f, DT_RPATH) && Uniform(f, DT_RUNPATH)
    && (f.sections.symbols.None? || f.sections.symbols.value == [])
    && FortifyCovered(f, raw, first, n)
  }

  /** All results that stripping can change are the same. */
  ghost predicate SameResults(f: ElfFile, g: ElfFile, raw: seq<byte>, stat: string -> Rpath.Stat)
    requires Scannable(f, raw) && Scannable(g, raw)
  {
    && CanaryVerdict(g, raw) == CanaryVerdict(f, raw) && OhosRetguard(g) == OhosRetguard(f)
    && PacCfiVerdict(g, raw) == PacCfiVerdict(f, raw)
    && Rpath.RpathVerdict(stat, g, raw) == Rpath.RpathVerdict(stat, f, raw)
    && Rpath.RunpathCheck(stat, g, raw) == Rpath.RunpathCheck(stat, f, raw) && Symbols(g) == Symbols(f)
    && Fortify.FortifyVerdict(g, raw, NoLibc(g, raw)) == Fortify.FortifyVerdict(f, raw, NoLibc(f, raw))
  }

  lemma SameReports(f: ElfFile, g: ElfFile, raw: seq<byte>, stat: string -> Rpath.Stat)
    requires Scannable(f, raw) && Scannable(g, raw) && g.machine == f.machine
    requires RelroVerdict(g, raw) == RelroVerdict(f, raw) && NxVerdict(g) == NxVerdict(f)
    requires PieVerdict(g, raw) == PieVerdict(f, raw) && Pic(g, raw) == Pic(f, raw)
    requires BindNow(g, raw) == BindNow(f, raw)
    ensures AllChecks(g, raw, stat) == AllChecks(f, raw, stat) <==> SameResults(f, g, raw, stat)
  {
    hide Scannable, RelroVerdict, NxVerdict, PieVerdict, Pic, BindNow, CanaryVerdict, OhosRetguard, PacCfiVerdict,
      Rpath.RpathVerdict, Rpath.RunpathCheck, Symbols, Fortify.FortifyVerdict, NoLibc, Linked, Lookup, ErrorChecks,
      OwnResults;
    AllLookups(f, raw, stat);
    AllLookups(g, raw, stat);
    FirstLookups(f, raw);
    FirstLookups(g, raw);
    FirstAreOwn(f, raw);
    FirstAreOwn(g, raw);
    if AllChecks(g, raw, stat) == AllChecks(f, raw, stat) {
      LinkingTells(FirstChecks(g, raw), FirstChecks(f, raw), f.machine == EM_AARCH64);
    }
  }

  lemma FlagsUnchanged(f: ElfFile, raw: seq<byte>)
    requires SameStrings(f, raw)
    ensures RelroVerdict(Stripped(f), raw) == RelroVerdict(f, raw) && BindNow(Stripped(f), raw) == BindNow(f, raw)
    ensures PieVerdict(Stripped(f), raw) == PieVerdict(f, raw) && Pic(Stripped(f), raw) == Pic(f, raw)
    ensures NxVerdict(Stripped(f)) == NxVerdict(f)
  {
    VerdictsSurviveStripping(f, raw);
    hide StackIndex, HasBit, RelroVerdict, BindNow, PieVerdict, Pic, SameEntries;
  }

  lemma ResultsSurviveStripping(f: ElfFile, raw: seq<byte>, first: nat, n: nat, stat: string -> Rpath.Stat)
    requires Scannable(f, raw) && SharedTable(f, raw, first, n) && SameStrings(f, raw) && TextMapped(f, raw)
    ensures Scannable(Stripped(f), raw)
    ensures SameResults(f, Stripped(f), raw, stat) <==> ReportCovered(f, raw, first, n)
  {
    hide Scannable, SharedTable, SameStrings, TextMapped, CanaryVerdict, OhosRetguard, PacCfiVerdict,
      Rpath.RpathVerdict, Rpath.RunpathCheck, Symbols, Fortify.FortifyVerdict, NoLibc, FortifyCovered, CanaryListed,
      SomeCanary, NamesOfSyms, CanaryFunction, ContainsCode, SomeSegmentHasCode, HasSegment, Uniform, Listed,
      ScannedRecords, ScannedStrings, Stripped;
    CanarySurvivesStripping(f, raw, first, n);
    RetguardSurvivesStripping(f);
    PacSurvivesStripping(f, raw);
    PathsSurviveStripping(f, raw, stat);
    SymbolsSurviveStripping(f);
    FortifySurvivesStripping(f, raw, first, n);
  }

  /** Stripping the section headers changes nothing in the report if and only if the file meets ReportCovered;
      RELRO, BIND_NOW, NX, PIE and PIC never change. */
  lemma ReportSurvivesStripping(f: ElfFile, raw: seq<byte>, first: nat, n: nat, path: string,
                                stat: string -> Rpath.Stat)
    requires Scannable(f, raw) && SharedTable(f, raw, first, n) && SameStrings(f, raw) && TextMapped(f, raw)
    ensures Checkable(Readable(Stripped(f), raw))
    ensures ReportOf(path, Readable(Stripped(f), raw), stat) == ReportOf(path, Readable(f, raw), stat) <==>
            ReportCovered(f, raw, first, n)
  {
    hide Scannable, SharedTable, SameStrings, TextMapped, RelroVerdict, NxVerdict, PieVerdict, Pic, BindNow,
      AllChecks, ReportCovered, SameResults;
    FlagsUnchanged(f, raw);
    ResultsSurviveStripping(f, raw, first, n, stat);
    SameReports(f, Stripped(f), raw, stat);
  }

  // ---- Reports that change -----------------------------------------------

  /** An AArch64 file with these bytes in one executable segment. */
  function CodeFile(size: u64, sections: Sections): ElfFile {
    ElfFile(Elf64, LittleEndian, ET_DYN, EM_AARCH64, [Prog(PT_LOAD, PF_R + PF_X, 0, 0x1000, size, size)], sections)
  }

  /** Retguard marked by its section alone is lost. */
  lemma RetguardSectionLost()
    ensures var f := CodeFile(0, NO_SECTIONS.(ohosRandomdata := true));
            && OhosRetguard(f) == OkResult("Retguard enabled")
            && OhosRetguard(Stripped(f)) == BadResult("No retguard")
  {
  }

  /** The instruction, followed by one byte of .text: it is found only without section headers. */
  lemma CodeOutsideText()
    ensures var raw: seq<byte> := PACIBSP_CODE + [0];
            var f := CodeFile(5, NO_SECTIONS.(text := Some(Some([0]))));
            && TextMapped(f, raw)
            && PacCfiVerdict(f, raw) == BadResult("No PAC CFI")
            && PacCfiVerdict(Stripped(f), raw) == OkResult("PAC CFI enabled")
  {
    var raw: seq<byte> := PACIBSP_CODE + [0];
    var f := CodeFile(5, NO_SECTIONS.(text := Some(Some([0]))));
    assert ReadSegment(raw, f.progs[0]) == Read(raw, Full) by {
      assert raw[0..5] == raw;
    }
    assert PartAt(raw, 4, [0]);
    assert CodeAt(raw, 0);
    assert HasBit(f.progs[0].flags, PF_X);
    hide HasBit, ReadSegment;
    assert HoldsText(raw, f.progs[0], [0]);
    assert SegmentHasCode(raw, Stripped(f).progs[0]);
  }

  /** A file whose report changes: its canary is an object. */
  lemma ReportChanges(path: string, stat: string -> Rpath.Stat)
    ensures var name, info := StrippedExamples.CANARY_NAME, OBJECT_INFO;
            var f, raw := StrippedExamples.OneFile(name, info), StrippedExamples.OneRaw(name, info);
            && Checkable(Readable(f, raw)) && Checkable(Readable(Stripped(f), raw))
            && ReportOf(path, Readable(Stripped(f), raw), stat) != ReportOf(path, Readable(f, raw), stat)
  {
    var name, info := StrippedExamples.CANARY_NAME, OBJECT_INFO;
    var f, raw := StrippedExamples.OneFile(name, info), StrippedExamples.OneRaw(name, info);
    hide StrippedExamples.OneRaw, SharedTable, SameStrings, Scannable, CanaryVerdict, AllChecks, FortifyCovered,
      Uniform, ScannedRecords, ScannedStrings, CanaryFunction, CanaryListed, StrippedExamples.OneEntries;
    StrippedExamples.OneShared(name, info);
    StrippedExamples.ObjectCanaryLost();
    ReportSurvivesStripping(f, raw, 0, 1, path, stat);
    CanarySurvivesStripping(f, raw, 0, 1);
  }
}
