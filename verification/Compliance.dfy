/** The secure-compile rules, their rollup, and the two exit-code decisions. */
module Compliance {
  import opened Bytes
  import opened Strings
  import opened Results
  import opened Elf
  import opened Dyn
  import opened Detectors
  import opened Report
  import Rpath
  import Fortify

  datatype Rule = PieRule | StackRule | RelroRule | BindNowRule | NxRule | StrippedRule | RpathRule

  const RULES: seq<Rule> := [PieRule, StackRule, RelroRule, BindNowRule, NxRule, StrippedRule, RpathRule]

  function RuleVerdict(rule: Rule, checks: Checks): Result {
    match rule
    case PieRule => PieRuleVerdict(Lookup(checks, "pie").value, Lookup(checks, "pic").status)
    case StackRule => if StackProtectionPassed(checks) then OkResult("pass") else BadResult("fail")
    case RelroRule => RelroRuleVerdict(Lookup(checks, "relro").value)
    case BindNowRule => BindNowRuleVerdict(Lookup(checks, "bind_now").value)
    case NxRule => NxRuleVerdict(Lookup(checks, "nx").status)
    case StrippedRule => if Lookup(checks, "symbols").status == Good then OkResult("pass") else BadResult("fail")
    case RpathRule => RpathRuleVerdict(Lookup(checks, "rpath").status)
  }

  function PieRuleVerdict(pie: string, pic: Status): Result {
    if pie == "PIE enabled" || pie == "Static PIE" then OkResult("pass")
    else if pie == "DSO (shared library)" then
      if pic == Bad then BadResult("fail (text relocations)") else OkResult("pass")
    else if pie == "REL (relocatable object)" then NaResult("n/a (object file)")
    else BadResult("fail")
  }

  function RelroRuleVerdict(relro: string): Result {
    if relro == "Full RELRO" || relro == "Partial RELRO" then OkResult("pass")
    else if relro == "N/A" then NaResult("n/a")
    else BadResult("fail")
  }

  function BindNowRuleVerdict(bindNow: string): Result {
    if bindNow == "Bind now" then OkResult("pass")
    else if bindNow == "error checking bind_now" then NaResult("n/a")
    else BadResult("fail")
  }

  function NxRuleVerdict(nx: Status): Result {
    match nx
    case Good => OkResult("pass")
    case Warn => NaResult("unknown (no GNU_STACK)")
    case NA => NaResult("n/a")
    case _ => BadResult("fail")
  }

  function RpathRuleVerdict(rpath: Status): Result {
    match rpath
    case Good => OkResult("pass")
    case Bad => BadResult("fail")
    case _ => NaResult("n/a")
  }

  // ---- The rollup --------------------------------------------------------

  datatype Item = Item(rule: Rule, verdict: Result)

  datatype Summary = Summary(name: string, pass: nat, fail: nat, na: nat, items: seq<Item>)

  function CountItems(items: seq<Item>, counted: Status -> bool): nat {
    if items == [] then 0
    else CountItems(items[..|items| - 1], counted) + if counted(items[|items| - 1].verdict.status) then 1 else 0
  }

  function ItemsOf(rules: seq<Rule>, checks: Checks): (items: seq<Item>)
    ensures |items| == |rules|
  {
    seq(|rules|, i requires 0 <= i < |rules| => Item(rules[i], RuleVerdict(rules[i], checks)))
  }

  const IsPass := (s: Status) => s == Good
  const IsFail := (s: Status) => s == Bad
  const IsOther := (s: Status) => s != Good && s != Bad

  function SummaryOf(r: FileReport): Summary {
    var items := ItemsOf(RULES, r.checks);
    Summary(r.name, CountItems(items, IsPass), CountItems(items, IsFail), CountItems(items, IsOther), items)
  }

  /** Evaluates every rule against one report. */
  method ComplianceOf(r: FileReport) returns (s: Summary)
    ensures s == SummaryOf(r)
  {
    hide RuleVerdict;
    var pass, fail, na, items := 0, 0, 0, [];
    for i := 0 to |RULES|
      invariant items == ItemsOf(RULES, r.checks)[..i]
      invariant pass == CountItems(items, IsPass)
      invariant fail == CountItems(items, IsFail)
      invariant na == CountItems(items, IsOther)
    {
      var item := Item(RULES[i], RuleVerdict(RULES[i], r.checks));
      CountSnoc(items, item);
      match item.verdict.status {
        case Good => pass := pass + 1;
        case Bad => fail := fail + 1;
        case _ => na := na + 1;
      }
      items := items + [item];
    }
    assert ItemsOf(RULES, r.checks)[..|RULES|] == ItemsOf(RULES, r.checks);
    s := Summary(r.name, pass, fail, na, items);
  }

  lemma CountSnoc(items: seq<Item>, item: Item)
    ensures forall counted ::
              CountItems(items + [item], counted) ==
              CountItems(items, counted) + if counted(item.verdict.status) then 1 else 0
  {
    assert (items + [item])[..|items|] == items;
  }

  lemma {:induction false} CountsAddUp(items: seq<Item>)
    ensures CountItems(items, IsPass) + CountItems(items, IsFail) + CountItems(items, IsOther) == |items|
    ensures CountItems(items, IsFail) > 0 <==> exists i :: 0 <= i < |items| && items[i].verdict.status == Bad
  {
    if items != [] {
      CountsAddUp(items[..|items| - 1]);
    }
  }

  predicate RuleFails(rule: Rule, checks: Checks) {
    RuleVerdict(rule, checks).status == Bad
  }

  /** Every rule is counted once, and the summary reports a failure exactly when a rule fails. */
  lemma RollupExact(r: FileReport)
    ensures var s := SummaryOf(r);
            && s.pass + s.fail + s.na == |RULES| == |s.items|
            && (s.fail > 0 <==> exists rule :: RuleFails(rule, r.checks))
  {
    var items := ItemsOf(RULES, r.checks);
    CountsAddUp(items);
    hide RuleVerdict;
    if s: Rule :| RuleFails(s, r.checks) {
      RuleListed(s);
      var i :| 0 <= i < |RULES| && RULES[i] == s;
      assert items[i].verdict.status == Bad;
    }
    if i :| 0 <= i < |items| && items[i].verdict.status == Bad {
      assert RuleFails(RULES[i], r.checks);
    }
  }

  lemma RuleListed(rule: Rule)
    ensures exists i :: 0 <= i < |RULES| && RULES[i] == rule
  {
    assert RULES[0] == PieRule && RULES[1] == StackRule && RULES[2] == RelroRule && RULES[3] == BindNowRule;
    assert RULES[4] == NxRule && RULES[5] == StrippedRule && RULES[6] == RpathRule;
  }

  // ---- Failing reports and exit codes ------------------------------------

  const FAIL_KEYS: seq<string> := ["relro", "canary", "nx", "pie", "pic", "bind_now", "rpath"]

  /** The key marks the report as failing; the canary stands for all three mechanisms. */
  predicate KeyFails(checks: Checks, key: string) {
    if key == "canary" then !StackProtectionPassed(checks) else Lookup(checks, key).status == Bad
  }

  predicate Fails(r: FileReport) {
    r.error != "" || exists i :: 0 <= i < |FAIL_KEYS| && KeyFails(r.checks, FAIL_KEYS[i])
  }

  predicate SomeFails(reports: seq<FileReport>) {
    exists i :: 0 <= i < |reports| && Fails(reports[i])
  }

  method HasFailures(reports: seq<FileReport>) returns (fails: bool)
    ensures fails == SomeFails(reports)
  {
    for i := 0 to |reports|
      invariant forall k :: 0 <= k < i ==> !Fails(reports[k])
    {
      var r := reports[i];
      if r.error != "" {
        return true;
      }
      for j := 0 to |FAIL_KEYS|
        invariant forall k :: 0 <= k < j ==> !KeyFails(r.checks, FAIL_KEYS[k])
      {
        var k := FAIL_KEYS[j];
        if k == "canary" {
          if !StackProtectionPassed(r.checks) {
            assert KeyFails(r.checks, FAIL_KEYS[j]);
            return true;
          }
          continue;
        }
        if Lookup(r.checks, k).status == Bad {
          assert KeyFails(r.checks, FAIL_KEYS[j]);
          return true;
        }
      }
    }
    fails := false;
  }

  predicate SomeNotCompliant(reports: seq<FileReport>) {
    exists i :: 0 <= i < |reports| && SummaryOf(reports[i]).fail > 0
  }

  /** The exit code once the reports are printed: 2 when a binary fails, else 0. */
  method ExitCode(format: string, reports: seq<FileReport>) returns (code: int)
    ensures var fails := if HasPrefix(format, "compliance") then SomeNotCompliant(reports) else SomeFails(reports);
            code == if fails then 2 else 0
  {
    if HasPrefix(format, "compliance") {
      for i := 0 to |reports|
        invariant forall k :: 0 <= k < i ==> SummaryOf(reports[k]).fail == 0
      {
        var s := ComplianceOf(reports[i]);
        if s.fail > 0 {
          return 2;
        }
      }
      return 0;
    }
    var fails := HasFailures(reports);
    if fails {
      return 2;
    }
    return 0;
  }

  // ---- The two modes compared --------------------------------------------

  lemma FailsExactly(r: FileReport)
    ensures Fails(r) <==>
            || r.error != "" || !StackProtectionPassed(r.checks)
            || Lookup(r.checks, "relro").status == Bad || Lookup(r.checks, "nx").status == Bad
            || Lookup(r.checks, "pie").status == Bad || Lookup(r.checks, "pic").status == Bad
            || Lookup(r.checks, "bind_now").status == Bad || Lookup(r.checks, "rpath").status == Bad
  {
    hide StackProtectionPassed, Lookup;
    assert FAIL_KEYS[0] == "relro" && FAIL_KEYS[1] == "canary" && FAIL_KEYS[2] == "nx" && FAIL_KEYS[3] == "pie";
    assert FAIL_KEYS[4] == "pic" && FAIL_KEYS[5] == "bind_now" && FAIL_KEYS[6] == "rpath";
  }

  /** Checks whose rule verdict fails exactly when the check itself is bad; a shared library
      with text relocations also fails the position-independence rule. */
  predicate Answered(c: Checks) {
    && (RelroRuleVerdict(Lookup(c, "relro").value).status == Bad <==> Lookup(c, "relro").status == Bad)
    && (BindNowRuleVerdict(Lookup(c, "bind_now").value).status == Bad <==> Lookup(c, "bind_now").status == Bad)
    && (NxRuleVerdict(Lookup(c, "nx").status).status == Bad <==> Lookup(c, "nx").status == Bad)
    && (PieRuleVerdict(Lookup(c, "pie").value, Lookup(c, "pic").status).status == Bad <==>
        Lookup(c, "pie").status == Bad || (Lookup(c, "pie").status == Info && Lookup(c, "pic").status == Bad))
  }

  lemma RelroAnswered(f: ElfFile, raw: seq<byte>)
    ensures RelroRuleVerdict(RelroVerdict(f, raw).value).status == Bad <==> RelroVerdict(f, raw).status == Bad
    ensures BindNowRuleVerdict(BindNow(f, raw).value).status == Bad <==> BindNow(f, raw).status == Bad
  {
    hide HasSegment, BindNowOf;
  }

  lemma NxAnswered(f: ElfFile)
    ensures NxRuleVerdict(NxVerdict(f).status).status == Bad <==> NxVerdict(f).status == Bad
  {
    hide HasBit, StackIndex;
  }

  lemma PieAnswered(f: ElfFile, raw: seq<byte>, pic: Status)
    ensures PieRuleVerdict(PieVerdict(f, raw).value, pic).status == Bad <==>
            PieVerdict(f, raw).status == Bad || (PieVerdict(f, raw).status == Info && pic == Bad)
  {
    hide HasSegment, HasBit, Flags1;
  }

  /** The later checks do not disturb each other or the earlier ones. */
  lemma UpdatesKept(base: Checks, nx: Result, pie: Result, pic: Result, bindNow: Result, rpath: Result, runpath: Result,
                    symbols: Result, fortify: Result, fortified: Result, fortifiable: Result)
    ensures var c := base["nx" := nx]["pie" := pie]["pic" := pic]["bind_now" := bindNow]["rpath" := rpath]
                     ["runpath" := runpath]["symbols" := symbols]["fortify" := fortify]["fortified" := fortified]
                     ["fortifiable" := fortifiable];
            && Lookup(c, "nx") == nx && Lookup(c, "pie") == pie && Lookup(c, "pic") == pic
            && Lookup(c, "bind_now") == bindNow && Lookup(c, "rpath") == rpath && Lookup(c, "symbols") == symbols
            && Lookup(c, "runpath") == runpath && Lookup(c, "fortify") == fortify
            && Lookup(c, "fortified") == fortified && Lookup(c, "fortifiable") == fortifiable
            && Lookup(c, "relro") == Lookup(base, "relro") && Lookup(c, "canary") == Lookup(base, "canary")
            && Lookup(c, "ohos_retguard") == Lookup(base, "ohos_retguard")
            && Lookup(c, "pac_cfi") == Lookup(base, "pac_cfi")
  {
  }

  lemma FirstLookups(f: ElfFile, raw: seq<byte>)
    requires Scannable(f, raw)
    ensures Lookup(Linked(FirstChecks(f, raw)), "relro") == RelroVerdict(f, raw)
    ensures var c := FirstChecks(f, raw);
            && Lookup(c, "canary") == CanaryVerdict(f, raw) && Lookup(c, "ohos_retguard") == OhosRetguard(f)
            && Lookup(c, "pac_cfi") == PacCfiVerdict(f, raw)
  {
    hide RelroVerdict, CanaryVerdict, OhosRetguard, PacCfiVerdict, ErrorChecks, Linked;
    LinkingKeepsVerdict(FirstChecks(f, raw));
  }

  function FortifyLookups(c: Checks): Fortify.FortifyResult {
    Fortify.FortifyResult(Lookup(c, "fortify"), Lookup(c, "fortified"), Lookup(c, "fortifiable"))
  }

  lemma AllLookups(f: ElfFile, raw: seq<byte>, stat: string -> Rpath.Stat)
    requires Scannable(f, raw)
    ensures var c := AllChecks(f, raw, stat);
            && Lookup(c, "relro") == RelroVerdict(f, raw) && Lookup(c, "nx") == NxVerdict(f)
            && Lookup(c, "pie") == PieVerdict(f, raw) && Lookup(c, "pic") == Pic(f, raw)
            && Lookup(c, "bind_now") == BindNow(f, raw) && Lookup(c, "rpath") == Rpath.RpathVerdict(stat, f, raw)
            && Lookup(c, "runpath") == Rpath.RunpathCheck(stat, f, raw) && Lookup(c, "symbols") == Symbols(f)
            && FortifyLookups(c) == Fortify.FortifyVerdict(f, raw, NoLibc(f, raw))
            && Lookup(c, "canary") == Lookup(Linked(FirstChecks(f, raw)), "canary")
            && Lookup(c, "ohos_retguard") == Lookup(Linked(FirstChecks(f, raw)), "ohos_retguard")
            && Lookup(c, "pac_cfi") == Lookup(Linked(FirstChecks(f, raw)), "pac_cfi")
  {
    hide RelroVerdict, NxVerdict, PieVerdict, Pic, BindNow, Symbols, NoLibc, Rpath.RpathVerdict, Rpath.RunpathCheck,
      Linked, Fortify.FortifyVerdict, FirstChecks, Lookup;
    FirstLookups(f, raw);
    var fr := Fortify.FortifyVerdict(f, raw, NoLibc(f, raw));
    UpdatesKept(Linked(FirstChecks(f, raw)), NxVerdict(f), PieVerdict(f, raw), Pic(f, raw), BindNow(f, raw),
                Rpath.RpathVerdict(stat, f, raw), Rpath.RunpathCheck(stat, f, raw), Symbols(f), fr.summary,
                fr.fortified, fr.fortifiable);
  }

  lemma DetectorsAnswer(f: ElfFile, raw: seq<byte>, stat: string -> Rpath.Stat)
    requires Scannable(f, raw)
    ensures Answered(AllChecks(f, raw, stat))
    ensures Lookup(AllChecks(f, raw, stat), "rpath").status in {Good, Bad}
  {
    hide AllChecks, Lookup, RelroVerdict, NxVerdict, PieVerdict, Pic, BindNow, Symbols, Rpath.RpathVerdict,
      PieRuleVerdict, RelroRuleVerdict, BindNowRuleVerdict, NxRuleVerdict;
    AllLookups(f, raw, stat);
    RelroAnswered(f, raw);
    NxAnswered(f);
    PieAnswered(f, raw, Pic(f, raw).status);
    RpathAnswers(stat, f, raw);
  }

  lemma RpathAnswers(stat: string -> Rpath.Stat, f: ElfFile, raw: seq<byte>)
    ensures Rpath.RpathVerdict(stat, f, raw).status in {Good, Bad}
  {
    hide DynamicStringsFor, Rpath.Entries, Rpath.Worst, Join;
  }

  predicate SpecRuleFails(c: Checks) {
    RuleFails(PieRule, c) || RuleFails(StackRule, c) || RuleFails(RelroRule, c) || RuleFails(BindNowRule, c) ||
    RuleFails(NxRule, c) || RuleFails(RpathRule, c)
  }

  lemma SpecRulesAreAll(c: Checks)
    ensures SpecRuleFails(c) <==> exists rule :: rule != StrippedRule && RuleFails(rule, c)
  {
    hide RuleFails;
  }

  lemma AgreeWhenAnswered(r: FileReport)
    requires r.error == "" && Answered(r.checks) && Lookup(r.checks, "rpath").status in {Good, Bad}
    ensures Fails(r) <==> SpecRuleFails(r.checks) || Lookup(r.checks, "pic").status == Bad
  {
    FailsExactly(r);
    hide Fails, Lookup, StackProtectionPassed, PieRuleVerdict, RelroRuleVerdict, BindNowRuleVerdict, NxRuleVerdict;
  }

  /** A report without error fails in the normal mode exactly when some rule other than
      `stripped` fails, or text relocations make `pic` bad. */
  lemma ModesAgree(path: string, input: Input, stat: string -> Rpath.Stat)
    requires input.Readable? && Checkable(input)
    ensures var r := ReportOf(path, input, stat);
            Fails(r) <==> (exists rule :: rule != StrippedRule && RuleFails(rule, r.checks)) ||
                          Lookup(r.checks, "pic").status == Bad
  {
    hide AllChecks, Fails, Answered, RuleFails, SpecRuleFails, Lookup;
    var r := ReportOf(path, input, stat);
    DetectorsAnswer(input.f, input.raw, stat);
    AgreeWhenAnswered(r);
    SpecRulesAreAll(r.checks);
  }

  /** A report with an error fails in both modes: six rules fail and one does not apply. */
  lemma ErrorsFailBoth(path: string, input: Input, stat: string -> Rpath.Stat)
    requires !input.Readable?
    ensures var r := ReportOf(path, input, stat);
            Fails(r) && SummaryOf(r).fail == 6 && SummaryOf(r).na == 1 && SummaryOf(r).pass == 0
  {
    var r := ReportOf(path, input, stat);
    ErrorVerdicts();
    var items := ItemsOf(RULES, r.checks);
    hide RuleVerdict, ErrorChecks;
    SevenItems(items);
  }

  lemma ErrorVerdicts()
    ensures var c := ErrorChecks();
            && (forall rule :: rule != BindNowRule ==> RuleVerdict(rule, c).status == Bad)
            && RuleVerdict(BindNowRule, c).status == NA
  {
    ErrorLookups();
    PassedExactly(ErrorChecks());
    ErrorValues();
    hide ErrorChecks, Lookup, StackProtectionPassed, PieRuleVerdict, RelroRuleVerdict, BindNowRuleVerdict;
  }

  lemma ErrorValues()
    ensures forall pic :: PieRuleVerdict(ErrResult("pie").value, pic).status == Bad
    ensures RelroRuleVerdict(ErrResult("relro").value).status == Bad
    ensures BindNowRuleVerdict(ErrResult("bind_now").value).status == NA
  {
    assert ErrResult("pie").value[0] == 'e' && ErrResult("relro").value[0] == 'e';
    assert ErrResult("bind_now").value[0] == 'e';
    assert ErrResult("bind_now").value == "error checking bind_now";
  }

  lemma ErrorLookups()
    ensures var c := ErrorChecks();
            && Lookup(c, "relro") == ErrResult("relro") && Lookup(c, "canary") == ErrResult("canary")
            && Lookup(c, "ohos_retguard") == ErrResult("ohos_retguard") && Lookup(c, "pac_cfi") == ErrResult("pac_cfi")
            && Lookup(c, "nx") == ErrResult("nx") && Lookup(c, "pie") == ErrResult("pie")
            && Lookup(c, "pic") == ErrResult("pic") && Lookup(c, "bind_now") == ErrResult("bind_now")
            && Lookup(c, "rpath") == ErrResult("rpath") && Lookup(c, "symbols") == ErrResult("symbols")
  {
    assert CHECK_ORDER[0] == "relro" && CHECK_ORDER[1] == "canary" && CHECK_ORDER[2] == "ohos_retguard";
    assert CHECK_ORDER[3] == "pac_cfi" && CHECK_ORDER[4] == "nx" && CHECK_ORDER[5] == "pie" && CHECK_ORDER[6] == "pic";
    assert CHECK_ORDER[7] == "bind_now" && CHECK_ORDER[8] == "rpath" && CHECK_ORDER[10] == "symbols";
  }

  lemma SevenItems(items: seq<Item>)
    requires |items| == 7 && forall i :: 0 <= i < 7 ==> items[i].verdict.status == if i == 3 then NA else Bad
    ensures CountItems(items, IsPass) == 0 && CountItems(items, IsFail) == 6 && CountItems(items, IsOther) == 1
  {
    UniformItems(items[4..], 3);
    UniformItems(items[..3], 3);
    CountConcat(items[..3], [items[3]], IsPass);
    CountConcat(items[..3], [items[3]], IsFail);
    CountConcat(items[..3], [items[3]], IsOther);
    CountConcat(items[..3] + [items[3]], items[4..], IsPass);
    CountConcat(items[..3] + [items[3]], items[4..], IsFail);
    CountConcat(items[..3] + [items[3]], items[4..], IsOther);
    assert items == items[..3] + [items[3]] + items[4..];
    assert [items[3]][..0] == [];
  }

  lemma {:induction false} UniformItems(items: seq<Item>, n: nat)
    requires |items| == n && forall i :: 0 <= i < n ==> items[i].verdict.status == Bad
    ensures CountItems(items, IsPass) == 0 && CountItems(items, IsFail) == n && CountItems(items, IsOther) == 0
  {
    if n > 0 {
      UniformItems(items[..n - 1], n - 1);
    }
  }

  lemma {:induction false} CountConcat(a: seq<Item>, b: seq<Item>, counted: Status -> bool)
    ensures CountItems(a + b, counted) == CountItems(a, counted) + CountItems(b, counted)
    decreases |b|
  {
    if b == [] {
      assert a + b == a;
    } else {
      assert (a + b)[..|a + b| - 1] == a + b[..|b| - 1];
      CountConcat(a, b[..|b| - 1], counted);
    }
  }

  /** The two gates decide alike on a report if and only if it is an errored one, or a rule other than
      `stripped` fails, or `stripped` fails exactly when there are text relocations. */
  lemma GatesAgreeExactly(path: string, input: Input, stat: string -> Rpath.Stat)
    requires Checkable(input)
    ensures var r := ReportOf(path, input, stat);
            (SummaryOf(r).fail > 0 <==> Fails(r)) <==>
            || !input.Readable?
            || SpecRuleFails(r.checks)
            || (RuleFails(StrippedRule, r.checks) <==> Lookup(r.checks, "pic").status == Bad)
  {
    hide AllChecks, Fails, RuleFails, SummaryOf, Lookup, ErrorChecks, SpecRuleFails;
    var r := ReportOf(path, input, stat);
    if input.Readable? {
      ModesAgree(path, input, stat);
      RollupExact(r);
      SpecRulesAreAll(r.checks);
    } else {
      ErrorsFailBoth(path, input, stat);
    }
  }
}
