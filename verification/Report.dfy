/** The report of one file: all checks, the stack-protection linkage, the compliance rollup
    and the exit code. */
module Report {
  import opened Bytes
  import opened Results
  import opened Elf
  import opened Dyn
  import opened Detectors
  import Rpath
  import Fortify

  type Checks = map<string, Result>

  datatype FileReport = FileReport(name: string, error: string, checks: Checks)

  const CHECK_ORDER: seq<string> := [
    "relro", "canary", "ohos_retguard", "pac_cfi", "nx", "pie", "pic", "bind_now", "rpath", "runpath", "symbols",
    "fortify", "fortified", "fortifiable"]

  /** A lookup gives the zero value for a missing key. */
  function Lookup(checks: Checks, key: string): Result {
    if key in checks then checks[key] else Result("", Unset)
  }

  // ---- Stack protection --------------------------------------------------

  const STACK_KEYS: seq<string> := ["canary", "ohos_retguard", "pac_cfi"]

  function HeaderName(key: string): string {
    if key == "canary" then "SP" else if key == "ohos_retguard" then "Retguard" else "PAC CFI"
  }

  predicate IsGood(checks: Checks, key: string) {
    Lookup(checks, key).status == Good
  }

  predicate StackProtectionPassed(checks: Checks) {
    exists i :: 0 <= i < |STACK_KEYS| && IsGood(checks, STACK_KEYS[i])
  }

  /** `other` reported as covered by `winner`, unless it is good itself. */
  function CoverOne(checks: Checks, winner: string, other: string): Checks {
    if other == winner || IsGood(checks, other) then checks
    else checks[other := OkResult("Covered by " + HeaderName(winner))]
  }

  function CoverAll(checks: Checks, winner: string): Checks {
    CoverOne(CoverOne(CoverOne(checks, winner, "canary"), winner, "ohos_retguard"), winner, "pac_cfi")
  }

  /** The first passing mechanism covers the others. */
  function Linked(checks: Checks): Checks {
    if IsGood(checks, "canary") then CoverAll(checks, "canary")
    else if IsGood(checks, "ohos_retguard") then CoverAll(checks, "ohos_retguard")
    else if IsGood(checks, "pac_cfi") then CoverAll(checks, "pac_cfi")
    else checks
  }

  /** The map of checks that CheckFile fills and rewrites in place. */
  class CheckTable {
    var checks: Checks

    constructor ()
      ensures checks == map[]
    {
      checks := map[];
    }

    method Set(key: string, r: Result)
      modifies this
      ensures checks == old(checks)[key := r]
    {
      checks := checks[key := r];
    }

    method LinkStackProtection()
      modifies this
      ensures checks == Linked(old(checks))
    {
      ghost var before := checks;
      for i := 0 to |STACK_KEYS|
        invariant checks == before
        invariant forall j :: 0 <= j < i ==> !IsGood(before, STACK_KEYS[j])
      {
        var k := STACK_KEYS[i];
        if !IsGood(checks, k) {
          continue;
        }
        for j := 0 to |STACK_KEYS|
          invariant j == 0 ==> checks == before
          invariant j == 1 ==> checks == CoverOne(before, k, "canary")
          invariant j == 2 ==> checks == CoverOne(CoverOne(before, k, "canary"), k, "ohos_retguard")
          invariant j == 3 ==> checks == CoverAll(before, k)
        {
          var other := STACK_KEYS[j];
          if other == k || IsGood(checks, other) {
            continue;
          }
          checks := checks[other := OkResult("Covered by " + HeaderName(k))];
        }
        assert i > 0 ==> !IsGood(before, STACK_KEYS[0]);
        assert i > 1 ==> !IsGood(before, STACK_KEYS[1]);
        return;
      }
      PassedExactly(before);
    }
  }

  /** What linking keeps: the verdict, every good value, every other key; afterwards all three
      mechanisms are good, or nothing changed. */
  lemma LinkingKeepsVerdict(checks: Checks)
    ensures StackProtectionPassed(Linked(checks)) == StackProtectionPassed(checks)
    ensures forall k :: k !in STACK_KEYS ==> Lookup(Linked(checks), k) == Lookup(checks, k)
    ensures forall k :: IsGood(checks, k) ==> Lookup(Linked(checks), k) == Lookup(checks, k)
    ensures if StackProtectionPassed(checks) then forall k :: k in STACK_KEYS ==> IsGood(Linked(checks), k)
            else Linked(checks) == checks
  {
    PassedExactly(checks);
    PassedExactly(Linked(checks));
    hide HeaderName;
  }

  lemma PassedExactly(checks: Checks)
    ensures StackProtectionPassed(checks) <==>
            IsGood(checks, "canary") || IsGood(checks, "ohos_retguard") || IsGood(checks, "pac_cfi")
  {
    assert STACK_KEYS[0] == "canary" && STACK_KEYS[1] == "ohos_retguard" && STACK_KEYS[2] == "pac_cfi";
  }

  /** The key of the first passing mechanism. */
  function Winner(checks: Checks): string
    requires StackProtectionPassed(checks)
  {
    if IsGood(checks, "canary") then "canary"
    else if IsGood(checks, "ohos_retguard") then "ohos_retguard"
    else "pac_cfi"
  }

  /** What each mechanism shows afterwards: its own good value, or that the first passing one covers it. */
  lemma LinkedValues(checks: Checks, key: string)
    requires key in STACK_KEYS && StackProtectionPassed(checks)
    ensures IsGood(checks, Winner(checks))
    ensures Lookup(Linked(checks), key) ==
            if IsGood(checks, key) then Lookup(checks, key) else OkResult("Covered by " + HeaderName(Winner(checks)))
  {
    PassedExactly(checks);
    hide HeaderName, StackProtectionPassed;
  }

  lemma LinkingIdempotent(checks: Checks)
    ensures Linked(Linked(checks)) == Linked(checks)
  {
    LinkingKeepsVerdict(checks);
    PassedExactly(checks);
  }

  // ---- Checking a file ---------------------------------------------------

  /** What opening a path gives: nothing readable, something that is not ELF, or a parsed file. */
  datatype Input = CannotOpen(why: string) | NotElf(why: string) | Readable(f: ElfFile, raw: seq<byte>)

  /** Inputs on which the symbol scan does not stop the program. */
  predicate Checkable(input: Input) {
    input.Readable? ==> Scannable(input.f, input.raw)
  }

  function Symbols(f: ElfFile): Result {
    if f.sections.symbols.Some? && |f.sections.symbols.value| > 0 then
      BadResult(Fortify.Itoa(|f.sections.symbols.value|) + " symbols")
    else OkResult("No symbols (stripped)")
  }

  function ErrorChecks(): Checks {
    map k | k in CHECK_ORDER :: ErrResult(k)
  }

  /** The four checks before linking, on top of the error defaults. */
  ghost function FirstChecks(f: ElfFile, raw: seq<byte>): Checks
    requires Scannable(f, raw)
  {
    ErrorChecks()["relro" := RelroVerdict(f, raw)]["canary" := CanaryVerdict(f, raw)]
    ["ohos_retguard" := OhosRetguard(f)]["pac_cfi" := PacCfiVerdict(f, raw)]
  }

  ghost function AllChecks(f: ElfFile, raw: seq<byte>, stat: string -> Rpath.Stat): Checks
    requires Scannable(f, raw)
  {
    var fortify := Fortify.FortifyVerdict(f, raw, NoLibc(f, raw));
    Linked(FirstChecks(f, raw))["nx" := NxVerdict(f)]["pie" := PieVerdict(f, raw)]["pic" := Pic(f, raw)]
    ["bind_now" := BindNow(f, raw)]["rpath" := Rpath.RpathVerdict(stat, f, raw)]
    ["runpath" := Rpath.RunpathCheck(stat, f, raw)]["symbols" := Symbols(f)]
    ["fortify" := fortify.summary]["fortified" := fortify.fortified]["fortifiable" := fortify.fortifiable]
  }

  ghost function ReportOf(path: string, input: Input, stat: string -> Rpath.Stat): FileReport
    requires Checkable(input)
  {
    match input
    case CannotOpen(why) => FileReport(path, "cannot open: " + why, ErrorChecks())
    case NotElf(why) => FileReport(path, "not an ELF file: " + why, ErrorChecks())
    case Readable(f, raw) => FileReport(path, "", AllChecks(f, raw, stat))
  }

  function CheckKeys(): set<string> {
    set k | k in CHECK_ORDER
  }

  lemma KeyAt(i: nat, key: string)
    requires i < |CHECK_ORDER| && CHECK_ORDER[i] == key
    ensures key in CheckKeys()
  {
  }

  lemma StackKeysKnown()
    ensures {"relro", "canary", "ohos_retguard", "pac_cfi"} <= CheckKeys()
  {
    hide CheckKeys;
    KeyAt(0, "relro");
    KeyAt(1, "canary");
    KeyAt(2, "ohos_retguard");
    KeyAt(3, "pac_cfi");
  }

  lemma OtherKeysKnown()
    ensures {"nx", "pie", "pic", "bind_now", "rpath"} <= CheckKeys()
    ensures {"runpath", "symbols", "fortify", "fortified", "fortifiable"} <= CheckKeys()
  {
    hide CheckKeys;
    KeyAt(4, "nx");
    KeyAt(5, "pie");
    KeyAt(6, "pic");
    KeyAt(7, "bind_now");
    KeyAt(8, "rpath");
    KeyAt(9, "runpath");
    KeyAt(10, "symbols");
    KeyAt(11, "fortify");
    KeyAt(12, "fortified");
    KeyAt(13, "fortifiable");
  }

  lemma ErrorKeys()
    ensures ErrorChecks().Keys == CheckKeys()
  {
  }

  lemma LinkedKeys(checks: Checks)
    requires {"canary", "ohos_retguard", "pac_cfi"} <= checks.Keys
    ensures Linked(checks).Keys == checks.Keys
  {
    hide HeaderName, IsGood;
  }

  lemma FirstKeys(f: ElfFile, raw: seq<byte>)
    requires Scannable(f, raw)
    ensures FirstChecks(f, raw).Keys == CheckKeys()
  {
    hide RelroVerdict, CanaryVerdict, OhosRetguard, PacCfiVerdict, CheckKeys, ErrorChecks;
    StackKeysKnown();
    ErrorKeys();
  }

  /** Every report has exactly the canonical keys, on error paths too. */
  lemma ReportComplete(path: string, input: Input, stat: string -> Rpath.Stat)
    requires Checkable(input)
    ensures ReportOf(path, input, stat).checks.Keys == CheckKeys()
  {
    hide CheckKeys, FirstChecks, Linked, NxVerdict, PieVerdict, Pic, BindNow, Symbols, NoLibc, Fortify.FortifyVerdict,
      Rpath.RpathVerdict, Rpath.RunpathCheck, ErrorChecks, Scannable;
    ErrorKeys();
    if input.Readable? {
      var f, raw := input.f, input.raw;
      FirstKeys(f, raw);
      StackKeysKnown();
      OtherKeysKnown();
      LinkedKeys(FirstChecks(f, raw));
    }
  }

  method FillErrors(table: CheckTable)
    requires table.checks == map[]
    modifies table
    ensures table.checks == ErrorChecks()
  {
    for i := 0 to |CHECK_ORDER|
      invariant table.checks == map k | k in CHECK_ORDER[..i] :: ErrResult(k)
    {
      assert CHECK_ORDER[..i + 1] == CHECK_ORDER[..i] + [CHECK_ORDER[i]];
      table.Set(CHECK_ORDER[i], ErrResult(CHECK_ORDER[i]));
    }
    assert CHECK_ORDER[..|CHECK_ORDER|] == CHECK_ORDER;
  }

  /** Runs every check against one input. */
  method CheckFile(path: string, input: Input, stat: string -> Rpath.Stat) returns (report: FileReport)
    requires Checkable(input)
    ensures report == ReportOf(path, input, stat)
  {
    var table := new CheckTable();
    FillErrors(table);
    if input.CannotOpen? {
      return FileReport(path, "cannot open: " + input.why, table.checks);
    }
    if input.NotElf? {
      return FileReport(path, "not an ELF file: " + input.why, table.checks);
    }
    RunFirst(table, input.f, input.raw);
    table.LinkStackProtection();
    RunRest(table, input.f, input.raw, stat);
    report := FileReport(path, "", table.checks);
  }

  method RunFirst(table: CheckTable, f: ElfFile, raw: seq<byte>)
    requires Scannable(f, raw) && table.checks == ErrorChecks()
    modifies table
    ensures table.checks == FirstChecks(f, raw)
  {
    hide RelroVerdict, CanaryVerdict, OhosRetguard, PacCfiVerdict, ErrorChecks;
    var relro := Relro(f, raw);
    table.Set("relro", relro);
    var canary := Canary(f, raw);
    table.Set("canary", canary);
    table.Set("ohos_retguard", OhosRetguard(f));
    var pacCfi := PacCfi(f, raw);
    table.Set("pac_cfi", pacCfi);
  }

  method RunRest(table: CheckTable, f: ElfFile, raw: seq<byte>, stat: string -> Rpath.Stat)
    requires Scannable(f, raw) && table.checks == Linked(FirstChecks(f, raw))
    modifies table
    ensures table.checks == AllChecks(f, raw, stat)
  {
    hide FirstChecks, Linked, NxVerdict, PieVerdict, Pic, BindNow, Symbols, NoLibc, DynamicStringsFor,
      Fortify.FortifyVerdict, Rpath.RpathStrictVerdict, Rpath.RunpathVerdict;
    var nx := Nx(f);
    table.Set("nx", nx);
    var pie := Pie(f, raw);
    table.Set("pie", pie);
    table.Set("pic", Pic(f, raw));
    table.Set("bind_now", BindNow(f, raw));
    var rpath := Rpath.SummarizeRpathStrict(stat, DynamicStringsFor(f, raw, DT_RPATH));
    table.Set("rpath", rpath);
    var runpath := Rpath.SummarizeRunpath(stat, "RUNPATH", DynamicStringsFor(f, raw, DT_RUNPATH));
    table.Set("runpath", runpath);
    table.Set("symbols", Symbols(f));
    var none := ResolveLibcFlag(f, raw);
    var fr := Fortify.FortifyCheck(f, raw, none);
    table.Set("fortify", fr.summary);
    table.Set("fortified", fr.fortified);
    table.Set("fortifiable", fr.fortifiable);
  }
}
