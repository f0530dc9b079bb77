/** The whole report on a generated image, and the exit code it leads to, as functions of the layout. */
module ImageReport {
  import opened Bytes
  import opened Results
  import opened Elf
  import opened Dyn
  import opened ElfGen
  import opened ImageReading
  import opened SymbolReading
  import opened SymbolRoundTrip
  import opened Detectors
  import opened Verdicts
  import opened Report
  import opened Compliance
  import ElfBuild
  import Rpath
  import Fortify

  predicate IsDynamicObject(l: Layout) {
    l.pie || l.etDyn
  }

  predicate CanaryPresent(l: Layout) {
    SomeCanary(FoundNames(l))
  }

  predicate RetguardPresent(l: Layout) {
    l.machine == EM_AARCH64 && l.retguard
  }

  ghost predicate PacPresent(l: Layout) {
    l.machine == EM_AARCH64 && ContainsCode(Image(l))
  }

  /** Some mechanism guards return addresses. */
  ghost predicate Guarded(l: Layout) {
    CanaryPresent(l) || RetguardPresent(l) || PacPresent(l)
  }

  /** The input that opening the image gives. */
  function InputOf(l: Layout): Input {
    Readable(Opened(l), Image(l))
  }

  lemma ImageCheckable(l: Layout)
    requires Buildable(l)
    ensures Scannable(Opened(l), Image(l)) && Checkable(InputOf(l))
    ensures NewFile(Image(l)) == Some(InputOf(l).f)
  {
    hide Image, Opened, Scannable, NewFile, Buildable, FoundNames, SymbolNamesPH;
    SymbolNamesExact(l);
    HeaderRoundTrip(l);
  }

  /** The three mechanisms before they are linked. */
  lemma FirstOfImage(l: Layout)
    requires Buildable(l) && Scannable(Opened(l), Image(l))
    ensures var c := FirstChecks(Opened(l), Image(l));
            && Lookup(c, "canary") == OwnResult(l, "canary")
            && Lookup(c, "ohos_retguard") == OwnResult(l, "ohos_retguard")
            && Lookup(c, "pac_cfi") == OwnResult(l, "pac_cfi")
  {
    hide Image, Opened, Scannable, FirstChecks, CanaryVerdict, OhosRetguard, PacCfiVerdict, SomeCanary, FoundNames,
      ContainsCode, Linked, SymbolsSurvive, Lookup, Buildable;
    FirstLookups(Opened(l), Image(l));
    CanaryOfImage(l);
    RetguardOfImage(l);
    PacOfImage(l);
  }

  ghost predicate Present(l: Layout, key: string) {
    if key == "canary" then CanaryPresent(l) else if key == "ohos_retguard" then RetguardPresent(l) else PacPresent(l)
  }

  /** What a mechanism reports by itself. */
  ghost function OwnResult(l: Layout, key: string): Result {
    if key == "canary" then if CanaryPresent(l) then OkResult("Canary found") else BadResult("No canary found")
    else if l.machine != EM_AARCH64 then NaResult("N/A (not AArch64)")
    else if key == "ohos_retguard" then
      if RetguardPresent(l) then OkResult("Retguard enabled") else BadResult("No retguard")
    else if PacPresent(l) then OkResult("PAC CFI enabled") else BadResult("No PAC CFI")
  }

  /** What it shows in the report: a missing mechanism is covered by the first present one. */
  ghost function LinkedResult(l: Layout, key: string): Result {
    if Present(l, key) then OwnResult(l, key)
    else if CanaryPresent(l) then OkResult("Covered by SP")
    else if RetguardPresent(l) then OkResult("Covered by Retguard")
    else if PacPresent(l) then OkResult("Covered by PAC CFI")
    else OwnResult(l, key)
  }

  lemma OwnGood(l: Layout, key: string)
    requires key in STACK_KEYS
    ensures OwnResult(l, key).status == Good <==> Present(l, key)
  {
    hide CanaryPresent, ContainsCode;
  }

  lemma LinkedFrom(l: Layout, c: Checks, key: string)
    requires key in STACK_KEYS
    requires Lookup(c, "canary") == OwnResult(l, "canary")
    requires Lookup(c, "ohos_retguard") == OwnResult(l, "ohos_retguard")
    requires Lookup(c, "pac_cfi") == OwnResult(l, "pac_cfi")
    ensures Lookup(Linked(c), key) == LinkedResult(l, key)
    ensures StackProtectionPassed(c) <==> Guarded(l)
  {
    hide OwnResult, CanaryPresent, RetguardPresent, PacPresent, Lookup, Linked, StackProtectionPassed;
    assert STACK_KEYS[0] == "canary" && STACK_KEYS[1] == "ohos_retguard" && STACK_KEYS[2] == "pac_cfi";
    OwnGood(l, "canary");
    OwnGood(l, "ohos_retguard");
    OwnGood(l, "pac_cfi");
    PassedExactly(c);
    LinkingKeepsVerdict(c);
    if StackProtectionPassed(c) {
      LinkedValues(c, key);
    }
  }

  lemma StackKept(f: ElfFile, raw: seq<byte>, stat: string -> Rpath.Stat)
    requires Scannable(f, raw)
    ensures StackProtectionPassed(AllChecks(f, raw, stat)) == StackProtectionPassed(FirstChecks(f, raw))
  {
    hide AllChecks, FirstChecks, Linked, Lookup;
    AllLookups(f, raw, stat);
    LinkingKeepsVerdict(FirstChecks(f, raw));
    PassedExactly(AllChecks(f, raw, stat));
    PassedExactly(Linked(FirstChecks(f, raw)));
  }

  lemma SymbolsOfImage(l: Layout)
    ensures Symbols(Opened(l)) == OkResult("No symbols (stripped)")
  {
  }

  /** What the fields of the layout say about segments and flags. */
  predicate HardeningMatches(l: Layout, c: Checks) {
    && Lookup(c, "relro") == (if !l.relro then BadResult("No RELRO")
                              else if l.bindNow || l.flagsBind then OkResult("Full RELRO")
                              else WarnResult("Partial RELRO"))
    && Lookup(c, "bind_now") == (if l.bindNow || l.flagsBind then OkResult("Bind now") else BadResult("Lazy binding"))
    && Lookup(c, "nx") == (if l.noStack then WarnResult("NX unknown (no GNU_STACK)")
                           else if l.gnuStackX then BadResult("NX disabled")
                           else OkResult("NX enabled"))
    && Lookup(c, "pie") == (if !IsDynamicObject(l) then BadResult("PIE disabled")
                            else if l.flags1Pie && !l.interp && !l.pie then OkResult("Static PIE")
                            else if l.flags1Pie || l.interp || l.pie then OkResult("PIE enabled")
                            else InfoResult("DSO (shared library)"))
    && Lookup(c, "pic") == (if !IsDynamicObject(l) then NaResult("N/A")
                            else if l.textRel || l.flagsTextRel then BadResult("Text relocations (not PIC)")
                            else OkResult("PIC enabled (no text relocations)"))
    && Lookup(c, "symbols") == OkResult("No symbols (stripped)")
  }

  ghost predicate StackMatches(l: Layout, c: Checks) {
    && Lookup(c, "canary") == LinkedResult(l, "canary")
    && Lookup(c, "ohos_retguard") == LinkedResult(l, "ohos_retguard")
    && Lookup(c, "pac_cfi") == LinkedResult(l, "pac_cfi")
  }

  predicate PathsMatch(l: Layout, c: Checks, stat: string -> Rpath.Stat) {
    && Lookup(c, "rpath") == Rpath.RpathStrictVerdict(stat, FoundStrings(l, DT_RPATH))
    && Lookup(c, "runpath") == Rpath.RunpathVerdict(stat, "RUNPATH", FoundStrings(l, DT_RUNPATH))
  }

  /** The FORTIFY results: not applicable without a found string table, else the sizes of the
      fortified and checkable name sets among the names the scan finds. */
  function FortifyExpected(l: Layout): Fortify.FortifyResult {
    var names := Fortify.Members(FoundNames(l));
    var fortified := |Fortify.FortifiedSet(names)|;
    var fortifiable := fortified + |Fortify.CheckableBases() * Fortify.BaseNames(names)|;
    if !TableFound(l) then Fortify.FortifyResult(NaResult("N/A"), NaResult("N/A"), NaResult("N/A"))
    else
      Fortify.FortifyResult(
        if fortified > 0 then OkResult("Yes")
        else if fortifiable > 0 then WarnResult("No")
        else InfoResult("No fortifiable calls"),
        InfoResult(Fortify.Itoa(fortified)), InfoResult(Fortify.Itoa(fortifiable)))
  }

  /** What the report on an image says, key by key. */
  ghost predicate ReportMatches(l: Layout, r: FileReport, stat: string -> Rpath.Stat) {
    && r.error == "" && r.checks.Keys == CheckKeys()
    && HardeningMatches(l, r.checks) && StackMatches(l, r.checks) && PathsMatch(l, r.checks, stat)
    && FortifyLookups(r.checks) == FortifyExpected(l)
  }

  lemma HardeningOfImage(l: Layout, stat: string -> Rpath.Stat)
    requires Buildable(l) && Scannable(Opened(l), Image(l))
    ensures HardeningMatches(l, AllChecks(Opened(l), Image(l), stat))
  {
    hide Image, Opened, AllChecks, Lookup, FirstChecks, RelroVerdict, BindNow, BindNowOf, NxVerdict, PieVerdict, Pic,
      Rpath.RpathVerdict, Rpath.RunpathCheck, Symbols, Scannable, Buildable, Linked, FortifyLookups,
      Fortify.FortifyVerdict, NoLibc;
    AllLookups(Opened(l), Image(l), stat);
    RelroOfImage(l);
    BindNowOfImage(l);
    NxOfImage(l);
    PieOfImage(l);
    PicOfImage(l);
    SymbolsOfImage(l);
  }

  lemma StackOfImage(l: Layout, stat: string -> Rpath.Stat)
    requires Buildable(l) && Scannable(Opened(l), Image(l))
    ensures StackMatches(l, AllChecks(Opened(l), Image(l), stat))
    ensures StackProtectionPassed(AllChecks(Opened(l), Image(l), stat)) <==> Guarded(l)
  {
    hide Image, Opened, AllChecks, Lookup, FirstChecks, Scannable, Buildable, Linked, OwnResult, LinkedResult,
      Guarded, StackProtectionPassed, FortifyLookups, Fortify.FortifyVerdict, NoLibc, RelroVerdict, BindNow,
      NxVerdict, PieVerdict, Pic, Rpath.RpathVerdict, Rpath.RunpathCheck, Symbols;
    AllLookups(Opened(l), Image(l), stat);
    FirstOfImage(l);
    LinkedFrom(l, FirstChecks(Opened(l), Image(l)), "canary");
    LinkedFrom(l, FirstChecks(Opened(l), Image(l)), "ohos_retguard");
    LinkedFrom(l, FirstChecks(Opened(l), Image(l)), "pac_cfi");
    StackKept(Opened(l), Image(l), stat);
  }

  lemma PathsAndFortifyOfImage(l: Layout, stat: string -> Rpath.Stat)
    requires Buildable(l) && Scannable(Opened(l), Image(l))
    ensures PathsMatch(l, AllChecks(Opened(l), Image(l), stat), stat)
    ensures FortifyLookups(AllChecks(Opened(l), Image(l), stat)) == FortifyExpected(l)
    ensures Lookup(AllChecks(Opened(l), Image(l), stat), "rpath").status ==
            if TableFound(l) && SomeEntry(l.rpath) then Bad else Good
  {
    hide Image, Opened, AllChecks, Lookup, FirstChecks, Scannable, Buildable, Linked, FortifyLookups, FortifyExpected,
      FoundStrings, TableFound, SomeEntry, Fortify.FortifyVerdict, NoLibc, RelroVerdict, BindNow, NxVerdict,
      PieVerdict, Pic, Rpath.RpathVerdict, Rpath.RunpathCheck, Rpath.RpathStrictVerdict, Rpath.RunpathVerdict,
      Symbols;
    AllLookups(Opened(l), Image(l), stat);
    PathsOfImage(l, stat);
    RpathOfImage(l, stat);
    FortifyOfImage(l);
  }

  /** The end-to-end theorem: the report on the image of any layout is what its fields say. */
  lemma ReportOfImage(l: Layout, path: string, stat: string -> Rpath.Stat)
    requires Buildable(l)
    ensures Checkable(InputOf(l)) && ReportMatches(l, ReportOf(path, InputOf(l), stat), stat)
  {
    hide Image, Opened, AllChecks, Scannable, Buildable, NewFile, HardeningMatches, StackMatches, PathsMatch,
      FortifyLookups, FortifyExpected, StackProtectionPassed, Guarded, TableFound, SomeEntry, Lookup, CheckKeys;
    ImageCheckable(l);
    HardeningOfImage(l, stat);
    StackOfImage(l, stat);
    PathsAndFortifyOfImage(l, stat);
    ReportComplete(path, InputOf(l), stat);
  }

  /** Generates an image, opens it and checks it, as the tests of the tool do. */
  method CheckGenerated(l: Layout, path: string, stat: string -> Rpath.Stat) returns (report: FileReport)
    requires Buildable(l)
    ensures ReportMatches(l, report, stat)
  {
    hide ReportMatches, ReportOf, Checkable, Buildable, Image, Opened, NewFile;
    var buf := ElfBuild.Build(l);
    ImageCheckable(l);
    var file := NewFile(buf[..]);
    ReportOfImage(l, path, stat);
    report := CheckFile(path, Readable(file.value, buf[..]), stat);
  }

  // ---- Exit codes --------------------------------------------------------

  predicate HasTextRelocations(l: Layout) {
    l.textRel || l.flagsTextRel
  }

  /** A shared library: dynamic, neither marked as an executable nor asking for an interpreter. */
  predicate IsSharedLibrary(l: Layout) {
    IsDynamicObject(l) && !l.flags1Pie && !l.interp && !l.pie
  }

  /** A protection that both gates demand is missing. */
  ghost predicate Lacks(l: Layout) {
    || !l.relro || !(l.bindNow || l.flagsBind)
    || !Guarded(l)
    || (!l.noStack && l.gnuStackX)
    || !IsDynamicObject(l)
    || (TableFound(l) && SomeEntry(l.rpath))
  }

  /** The normal gate fails exactly when the layout lacks a protection or has text relocations. */
  lemma ExitOfImage(l: Layout, path: string, stat: string -> Rpath.Stat)
    requires Buildable(l)
    ensures Checkable(InputOf(l))
    ensures Fails(ReportOf(path, InputOf(l), stat)) <==> Lacks(l) || HasTextRelocations(l)
  {
    hide Image, Opened, AllChecks, Scannable, Buildable, NewFile, Fails, Lookup, StackProtectionPassed, Guarded,
      TableFound, SomeEntry, PathsMatch, StackMatches, FortifyLookups, FortifyExpected;
    ImageCheckable(l);
    HardeningOfImage(l, stat);
    StackOfImage(l, stat);
    PathsAndFortifyOfImage(l, stat);
    FailsExactly(ReportOf(path, InputOf(l), stat));
  }

  /** The position-independence rule tolerates text relocations outside shared libraries. */
  lemma PieRuleOnHardening(l: Layout, c: Checks)
    requires HardeningMatches(l, c)
    ensures RuleFails(PieRule, c) <==> !IsDynamicObject(l) || (IsSharedLibrary(l) && HasTextRelocations(l))
  {
    hide Lookup, RelroRuleVerdict, BindNowRuleVerdict, NxRuleVerdict, RpathRuleVerdict, StackProtectionPassed;
  }

  lemma RulesOnHardening(l: Layout, c: Checks)
    requires HardeningMatches(l, c)
    ensures RuleFails(RelroRule, c) <==> !l.relro
    ensures RuleFails(BindNowRule, c) <==> !(l.bindNow || l.flagsBind)
    ensures RuleFails(NxRule, c) <==> !l.noStack && l.gnuStackX
    ensures !RuleFails(StrippedRule, c)
  {
    hide Lookup, PieRuleVerdict, RpathRuleVerdict, StackProtectionPassed;
  }

  /** The compliance gate fails exactly when the layout lacks a protection or is a shared
      library with text relocations; so the gates differ only on executables with text relocations. */
  lemma ComplianceOfImage(l: Layout, path: string, stat: string -> Rpath.Stat)
    requires Buildable(l)
    ensures Checkable(InputOf(l))
    ensures SummaryOf(ReportOf(path, InputOf(l), stat)).fail > 0 <==>
            Lacks(l) || (IsSharedLibrary(l) && HasTextRelocations(l))
  {
    hide Image, Opened, AllChecks, Scannable, Buildable, NewFile, Lookup, StackProtectionPassed, Guarded, TableFound,
      SomeEntry, HardeningMatches, PathsMatch, StackMatches, FortifyLookups, FortifyExpected, RuleFails, SummaryOf,
      IsSharedLibrary, HasTextRelocations, IsDynamicObject;
    ImageCheckable(l);
    HardeningOfImage(l, stat);
    StackOfImage(l, stat);
    PathsAndFortifyOfImage(l, stat);
    var r := ReportOf(path, InputOf(l), stat);
    RollupExact(r);
    PieRuleOnHardening(l, r.checks);
    RulesOnHardening(l, r.checks);
    OtherRules(r.checks);
    SpecRulesAreAll(r.checks);
  }

  lemma OtherRules(c: Checks)
    ensures RuleFails(StackRule, c) <==> !StackProtectionPassed(c)
    ensures RuleFails(RpathRule, c) <==> Lookup(c, "rpath").status == Bad
  {
    hide StackProtectionPassed, Lookup;
  }

  // ---- Where the gates differ --------------------------------------------

  const CANARY: GoString := "__stack_chk_fail"

  /** A protected executable whose only flaw is text relocations. */
  function RelocatedExecutable(): Layout {
    Layout("reloc", 0, true, false, false, false, false, true, true, false, false, true, false, false, false,
           [], [], [CANARY], [])
  }

  lemma RelocatedTable()
    ensures |StrTab(RelocatedExecutable())| == 28
  {
    var l := RelocatedExecutable();
    assert SymNames(l) == [CANARY] && JoinedPath([]) == "";
    PackedLength([CANARY, LIBC]);
    PackedLength([CANARY]);
    PackedLength([]);
    hide Packed;
    assert Names(l) == [CANARY, LIBC];
  }

  lemma RelocatedPlain()
    ensures Buildable(RelocatedExecutable()) && PlainLayout(RelocatedExecutable())
  {
    var l := RelocatedExecutable();
    RelocatedTable();
    hide StrTab;
    SmallLayout(l);
    assert JoinedPath([]) == "";
  }

  lemma RelocatedGuarded()
    ensures CanaryPresent(RelocatedExecutable())
  {
    var l := RelocatedExecutable();
    RelocatedPlain();
    hide Image, Opened, SymbolsSurvive, FoundNames, Scannable, CanaryVerdict, Buildable, PlainLayout;
    PlainSurvives(l);
    CanaryOfImage(l);
    CanaryIsCanary();
    assert l.dynSyms[0] == CANARY;
  }

  lemma CanaryIsCanary()
    ensures IsCanarySymbol(CANARY)
  {
    assert CANARY_PREFIXES[0] == CANARY;
  }

  /** The normal gate fails it, the compliance gate lets it pass. */
  lemma GatesDiffer(path: string, stat: string -> Rpath.Stat)
    ensures var l := RelocatedExecutable();
            && Buildable(l) && Checkable(InputOf(l))
            && Fails(ReportOf(path, InputOf(l), stat))
            && SummaryOf(ReportOf(path, InputOf(l), stat)).fail == 0
  {
    RelocatedPlain();
    RelocatedGuarded();
    hide Image, Opened, Buildable, ReportOf, Fails, SummaryOf, CanaryPresent, PlainLayout, Checkable, TableFound;
    var l := RelocatedExecutable();
    ExitOfImage(l, path, stat);
    ComplianceOfImage(l, path, stat);
  }

  lemma NothingImported(l: Layout)
    ensures Fortify.ImportedNames(Opened(l)) == []
  {
  }

  lemma FortifyOfImage(l: Layout)
    requires Buildable(l)
    ensures Scannable(Opened(l), Image(l))
    ensures Fortify.FortifyVerdict(Opened(l), Image(l), NoLibc(Opened(l), Image(l))) == FortifyExpected(l)
  {
    hide Image, Opened, Scannable, FoundNames, SymbolNamesPH, Fortify.Referenced, Fortify.ImportedNames,
      Fortify.Members, Fortify.FortifiedSet, Fortify.FortifiedNames, Fortify.CheckableBases, Fortify.BaseNames,
      TableFound, NoLibc, Fortify.Itoa, Buildable, AdvertisedNames;
    OnlyPhdrNames(l);
    SymbolNamesExact(l);
    LibcOfImage(l);
    NothingImported(l);
    SymbolsMissing(l);
    Fortify.FortifiedExact(Opened(l), Image(l));
    Fortify.NoMembers();
    var names := Fortify.Members(FoundNames(l));
    assert Fortify.Members([]) + names == names;
  }

  lemma SymbolsMissing(l: Layout)
    ensures Opened(l).sections.symbols.None?
  {
  }
}
