/** What each compliance rule answers, in terms of the checks of the file, and what an errored report holds. */
module ComplianceLaws {
  import opened Bytes
  import opened Results
  import opened Elf
  import opened Dyn
  import opened Detectors
  import opened Report
  import opened Compliance
  import Rpath
  import Fortify

  // ---- Rules on a checked file -------------------------------------------

  /** Which keys each rule looks at. */
  lemma RuleParts(c: Checks)
    ensures RuleVerdict(PieRule, c) == PieRuleVerdict(Lookup(c, "pie").value, Lookup(c, "pic").status)
    ensures RuleVerdict(StackRule, c) == if StackProtectionPassed(c) then Result("pass", Good) else Result("fail", Bad)
    ensures RuleVerdict(RelroRule, c) == RelroRuleVerdict(Lookup(c, "relro").value)
    ensures RuleVerdict(BindNowRule, c) == BindNowRuleVerdict(Lookup(c, "bind_now").value)
    ensures RuleVerdict(NxRule, c) == NxRuleVerdict(Lookup(c, "nx").status)
    ensures RuleVerdict(StrippedRule, c) ==
            if Lookup(c, "symbols").status == Good then Result("pass", Good) else Result("fail", Bad)
    ensures RuleVerdict(RpathRule, c) == RpathRuleVerdict(Lookup(c, "rpath").status)
  {
    hide PieRuleVerdict, RelroRuleVerdict, BindNowRuleVerdict, NxRuleVerdict, RpathRuleVerdict, Lookup,
      StackProtectionPassed;
  }

  lemma PieRuleOf(f: ElfFile, raw: seq<byte>, pic: Status)
    ensures PieRuleVerdict(PieVerdict(f, raw).value, pic) ==
            match PieVerdict(f, raw).status
            case Good => Result("pass", Good)
            case Info => if pic == Bad then Result("fail (text relocations)", Bad) else Result("pass", Good)
            case Warn => Result("n/a (object file)", NA)
            case _ => Result("fail", Bad)
  {
    hide HasSegment, HasBit, Flags1;
  }

  /** A position-independent executable passes, a shared library unless it has text relocations; the rule does not
      apply to object files. */
  lemma PieRuleMeaning(f: ElfFile, raw: seq<byte>, stat: string -> Rpath.Stat)
    requires Scannable(f, raw)
    ensures RuleVerdict(PieRule, AllChecks(f, raw, stat)) ==
            match PieVerdict(f, raw).status
            case Good => Result("pass", Good)
            case Info =>
              if Pic(f, raw).status == Bad then Result("fail (text relocations)", Bad) else Result("pass", Good)
            case Warn => Result("n/a (object file)", NA)
            case _ => Result("fail", Bad)
  {
    hide AllChecks, RuleVerdict, Lookup, PieVerdict, Pic, PieRuleVerdict;
    AllLookups(f, raw, stat);
    RuleParts(AllChecks(f, raw, stat));
    PieRuleOf(f, raw, Pic(f, raw).status);
  }

  /** Any of the three mechanisms satisfies the stack rule. */
  lemma StackRuleMeaning(f: ElfFile, raw: seq<byte>, stat: string -> Rpath.Stat)
    requires Scannable(f, raw)
    ensures RuleVerdict(StackRule, AllChecks(f, raw, stat)) ==
            if CanaryVerdict(f, raw).status == Good || OhosRetguard(f).status == Good ||
               PacCfiVerdict(f, raw).status == Good then Result("pass", Good)
            else Result("fail", Bad)
  {
    hide AllChecks, RuleVerdict, Lookup, CanaryVerdict, OhosRetguard, PacCfiVerdict, FirstChecks, Linked,
      StackProtectionPassed;
    AllLookups(f, raw, stat);
    RuleParts(AllChecks(f, raw, stat));
    FirstLookups(f, raw);
    PassedExactly(AllChecks(f, raw, stat));
    PassedExactly(Linked(FirstChecks(f, raw)));
    PassedExactly(FirstChecks(f, raw));
    LinkingKeepsVerdict(FirstChecks(f, raw));
  }

  lemma RelroRuleOf(f: ElfFile, raw: seq<byte>)
    ensures RelroRuleVerdict(RelroVerdict(f, raw).value) ==
            match RelroVerdict(f, raw).status
            case Good => Result("pass", Good)
            case Warn => Result("pass", Good)
            case NA => Result("n/a", NA)
            case _ => Result("fail", Bad)
    ensures BindNowRuleVerdict(BindNow(f, raw).value) ==
            if BindNow(f, raw).status == Good then Result("pass", Good) else Result("fail", Bad)
  {
    hide HasSegment, BindNowOf;
  }

  /** Full and partial RELRO both pass; the rule does not apply to files without program headers. */
  lemma RelroRuleMeaning(f: ElfFile, raw: seq<byte>, stat: string -> Rpath.Stat)
    requires Scannable(f, raw)
    ensures RuleVerdict(RelroRule, AllChecks(f, raw, stat)) ==
            match RelroVerdict(f, raw).status
            case Good => Result("pass", Good)
            case Warn => Result("pass", Good)
            case NA => Result("n/a", NA)
            case _ => Result("fail", Bad)
  {
    hide AllChecks, RuleVerdict, Lookup, RelroVerdict, BindNow, RelroRuleVerdict, BindNowRuleVerdict;
    AllLookups(f, raw, stat);
    RuleParts(AllChecks(f, raw, stat));
    RelroRuleOf(f, raw);
  }

  /** Immediate binding has its own rule. */
  lemma BindNowRuleMeaning(f: ElfFile, raw: seq<byte>, stat: string -> Rpath.Stat)
    requires Scannable(f, raw)
    ensures RuleVerdict(BindNowRule, AllChecks(f, raw, stat)) ==
            if BindNow(f, raw).status == Good then Result("pass", Good) else Result("fail", Bad)
  {
    hide AllChecks, RuleVerdict, Lookup, RelroVerdict, BindNow, RelroRuleVerdict, BindNowRuleVerdict;
    AllLookups(f, raw, stat);
    RuleParts(AllChecks(f, raw, stat));
    RelroRuleOf(f, raw);
  }

  /** An open stack verdict is not a violation. */
  lemma NxRuleMeaning(f: ElfFile, raw: seq<byte>, stat: string -> Rpath.Stat)
    requires Scannable(f, raw)
    ensures RuleVerdict(NxRule, AllChecks(f, raw, stat)) ==
            match NxVerdict(f).status
            case Good => Result("pass", Good)
            case Warn => Result("unknown (no GNU_STACK)", NA)
            case NA => Result("n/a", NA)
            case _ => Result("fail", Bad)
  {
    hide AllChecks, RuleVerdict, Lookup, NxVerdict;
    AllLookups(f, raw, stat);
    RuleParts(AllChecks(f, raw, stat));
  }

  /** Static symbols are a violation. */
  lemma StrippedRuleMeaning(f: ElfFile, raw: seq<byte>, stat: string -> Rpath.Stat)
    requires Scannable(f, raw)
    ensures RuleVerdict(StrippedRule, AllChecks(f, raw, stat)) ==
            if f.sections.symbols.Some? && f.sections.symbols.value != [] then Result("fail", Bad)
            else Result("pass", Good)
  {
    hide AllChecks, RuleVerdict, Lookup, Fortify.Itoa;
    AllLookups(f, raw, stat);
    RuleParts(AllChecks(f, raw, stat));
  }

  /** Any recorded RPATH is a violation. */
  lemma RpathRuleMeaning(f: ElfFile, raw: seq<byte>, stat: string -> Rpath.Stat)
    requires Scannable(f, raw)
    ensures RuleVerdict(RpathRule, AllChecks(f, raw, stat)) ==
            if DynamicStringsFor(f, raw, 15) == [] then Result("pass", Good) else Result("fail", Bad)
  {
    hide AllChecks, RuleVerdict, Lookup, DynamicStringsFor, Rpath.RpathStrictVerdict;
    AllLookups(f, raw, stat);
    RuleParts(AllChecks(f, raw, stat));
    RpathGoodExactly(stat, DynamicStringsFor(f, raw, 15));
  }

  lemma RpathGoodExactly(stat: string -> Rpath.Stat, paths: seq<string>)
    ensures Rpath.RpathStrictVerdict(stat, paths).status == if paths == [] then Good else Bad
  {
    hide Rpath.Entries, Rpath.Worst;
  }

  /** The strip check says how many static symbols there are. */
  lemma SymbolsMeaning(f: ElfFile)
    ensures Symbols(f) ==
            if f.sections.symbols.None? || |f.sections.symbols.value| == 0 then Result("No symbols (stripped)", Good)
            else Result(Fortify.Itoa(|f.sections.symbols.value|) + " symbols", Bad)
  {
  }

  /** The summary lists the rules in this order, each with its verdict. */
  lemma SummaryInOrder(r: FileReport)
    ensures var s := SummaryOf(r);
            && |s.items| == 7 && s.name == r.name
            && s.items[0].rule == PieRule && s.items[1].rule == StackRule && s.items[2].rule == RelroRule
            && s.items[3].rule == BindNowRule && s.items[4].rule == NxRule && s.items[5].rule == StrippedRule
            && s.items[6].rule == RpathRule
            && forall i :: 0 <= i < 7 ==> s.items[i].verdict == RuleVerdict(s.items[i].rule, r.checks)
  {
    hide RuleVerdict, CountItems;
  }

  // ---- Errored reports ---------------------------------------------------

  lemma KeysExact()
    ensures CheckKeys() ==
            {"relro", "canary", "ohos_retguard", "pac_cfi", "nx", "pie", "pic", "bind_now", "rpath", "runpath",
             "symbols", "fortify", "fortified", "fortifiable"}
  {
    StackKeysKnown();
    OtherKeysKnown();
    assert |CHECK_ORDER| == 14;
  }

  /** Every report has these fourteen keys; an errored one says at each of them that the check could not run. */
  lemma ReportKeysMeaning(path: string, input: Input, stat: string -> Rpath.Stat)
    requires Checkable(input)
    ensures var r := ReportOf(path, input, stat);
            && r.name == path
            && r.error == (match input
                           case CannotOpen(why) => "cannot open: " + why
                           case NotElf(why) => "not an ELF file: " + why
                           case Readable(_, _) => "")
            && r.checks.Keys ==
               {"relro", "canary", "ohos_retguard", "pac_cfi", "nx", "pie", "pic", "bind_now", "rpath", "runpath",
                "symbols", "fortify", "fortified", "fortifiable"}
            && (!input.Readable? ==>
                  forall key :: key in r.checks ==> r.checks[key] == Result("error checking " + key, Bad))
  {
    hide AllChecks, CheckKeys, Scannable;
    ReportComplete(path, input, stat);
    KeysExact();
  }

  lemma ErrorTexts()
    ensures forall pic :: PieRuleVerdict(ErrResult("pie").value, pic) == Result("fail", Bad)
    ensures RelroRuleVerdict(ErrResult("relro").value) == Result("fail", Bad)
    ensures BindNowRuleVerdict(ErrResult("bind_now").value) == Result("n/a", NA)
  {
    assert ErrResult("pie").value[0] == 'e' && ErrResult("relro").value[0] == 'e';
    assert ErrResult("bind_now").value == "error checking bind_now";
  }

  /** On an errored report immediate binding does not apply and every other rule fails. */
  lemma ErroredRules(rule: Rule)
    ensures RuleVerdict(rule, ErrorChecks()) == if rule == BindNowRule then Result("n/a", NA) else Result("fail", Bad)
  {
    ErrorLookups();
    PassedExactly(ErrorChecks());
    ErrorTexts();
    hide ErrorChecks, Lookup, StackProtectionPassed, PieRuleVerdict, RelroRuleVerdict, BindNowRuleVerdict;
  }
}
