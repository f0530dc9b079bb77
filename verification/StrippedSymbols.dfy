/** What becomes of the symbol checks when the section headers are stripped: the section view lists symbols of
    every type, the program-header scan only functions. */
module StrippedSymbols {
  import opened Bytes
  import opened Strings
  import opened Elf
  import opened Dyn
  import opened DynProperties
  import opened Detectors
  import opened SectionAgreement
  import opened Fortify

  // ---- One table, two views ----------------------------------------------

  /** The records that the program-header scan reads; none without a located table. */
  function ScannedRecords(f: ElfFile, raw: seq<byte>): seq<SymRecord>
    requires Scannable(f, raw)
  {
    match FindSymTable(f, raw)
    case None => []
    case Some(t) => RecordsFrom(f.cls, f.order, raw, t, 0)
  }

  /** The string table that names them. */
  function ScannedStrings(f: ElfFile, raw: seq<byte>): seq<byte> {
    match FindSymTable(f, raw)
    case None => []
    case Some(t) => t.str
  }

  /** The section view names a symbol only by a terminated string. */
  function SectionName(str: seq<byte>, rec: SymRecord): GoString {
    if Terminated(str, rec.nameOff) then CstrAt(str, rec.nameOff).value else ""
  }

  /** What the section view makes of the same records: a name and a type for each. */
  function SectionSyms(recs: seq<SymRecord>, str: seq<byte>): (syms: seq<Sym>)
    ensures |syms| == |recs|
  {
    seq(|recs|, i requires 0 <= i < |recs| => Sym(SectionName(str, recs[i]), recs[i].info))
  }

  /** The records number `first` to `n`: the section headers bound the table and its view leaves out the null
      symbol, while the scan may run on into the bytes behind the table. */
  function Listed(f: ElfFile, raw: seq<byte>, first: nat, n: nat): seq<SymRecord>
    requires Scannable(f, raw) && first <= n <= |ScannedRecords(f, raw)|
  {
    ScannedRecords(f, raw)[first..n]
  }

  /** Both views look at the same symbol table. */
  predicate SharedTable(f: ElfFile, raw: seq<byte>, first: nat, n: nat)
    requires Scannable(f, raw)
  {
    && first <= n <= |ScannedRecords(f, raw)|
    && SymsOf(f.sections.dynSymbols) == SectionSyms(Listed(f, raw, first, n), ScannedStrings(f, raw))
  }

  lemma NamesOfOption(syms: Option<seq<Sym>>)
    ensures NamesOfSyms(syms) == NamesOfSyms(Some(SymsOf(syms)))
  {
  }

  lemma ScanNames(f: ElfFile, raw: seq<byte>)
    requires Scannable(f, raw)
    ensures SymbolNamesPH(f, raw) == NamesOf(ScannedRecords(f, raw), ScannedStrings(f, raw))
  {
    hide FindSymTable, RecordsFrom, Scannable;
    assert NamesOf([], []) == [];
  }

  lemma StrippedScan(f: ElfFile, raw: seq<byte>)
    requires Scannable(f, raw)
    ensures Scannable(Stripped(f), raw) && SymbolNamesPH(Stripped(f), raw) == SymbolNamesPH(f, raw)
    ensures AdvertisedNames(Stripped(f), raw) == SymbolNamesPH(f, raw)
    ensures Referenced(Stripped(f), raw) == SymbolNamesPH(f, raw) && ImportedNames(Stripped(f)) == []
  {
    hide RecordsFrom, NamesOf, ScanLimit, DynamicStrings;
  }

  // ---- Canary ------------------------------------------------------------

  predicate IsCanaryFunction(rec: SymRecord, str: seq<byte>) {
    && rec.info % 16 == STT_FUNC
    && CstrAt(str, rec.nameOff).Some? && IsCanarySymbol(CstrAt(str, rec.nameOff).value)
  }

  /** Some record is a function with a canary name. */
  predicate CanaryFunction(recs: seq<SymRecord>, str: seq<byte>) {
    exists i :: 0 <= i < |recs| && IsCanaryFunction(recs[i], str)
  }

  /** Some record has a canary name, whatever its type. */
  predicate CanaryListed(recs: seq<SymRecord>, str: seq<byte>) {
    exists i :: 0 <= i < |recs| && IsCanarySymbol(SectionName(str, recs[i]))
  }

  lemma CanaryFunctionFound(recs: seq<SymRecord>, str: seq<byte>)
    ensures SomeCanary(NamesOf(recs, str)) <==> CanaryFunction(recs, str)
  {
    EmptyNotCanary();
    hide IsCanarySymbol, NamesOf, CstrAt;
    var names := NamesOf(recs, str);
    if i :| 0 <= i < |names| && IsCanarySymbol(names[i]) {
      NamesOfExact(recs, str, names[i]);
      assert names[i] in names;
      var k :| 0 <= k < |recs| && NamesFunction(recs[k], str, names[i]);
      assert IsCanaryFunction(recs[k], str);
    }
    if k :| 0 <= k < |recs| && IsCanaryFunction(recs[k], str) {
      var n := CstrAt(str, recs[k].nameOff).value;
      NamesOfExact(recs, str, n);
      assert NamesFunction(recs[k], str, n);
      var i :| 0 <= i < |names| && names[i] == n;
      assert IsCanarySymbol(names[i]);
    }
  }

  lemma CanaryListedFound(recs: seq<SymRecord>, str: seq<byte>)
    ensures SomeCanary(NamesOfSyms(Some(SectionSyms(recs, str)))) <==> CanaryListed(recs, str)
  {
    hide IsCanarySymbol, SectionName;
    var names := NamesOfSyms(Some(SectionSyms(recs, str)));
    assert |names| == |recs| && forall i :: 0 <= i < |recs| ==> names[i] == SectionName(str, recs[i]);
  }

  /** The canary verdict survives stripping if and only if, when a symbol that the sections list has a canary
      name, some record of the shared table is a function with one. */
  lemma CanarySurvivesStripping(f: ElfFile, raw: seq<byte>, first: nat, n: nat)
    requires Scannable(f, raw) && SharedTable(f, raw, first, n)
    ensures Scannable(Stripped(f), raw)
    ensures CanaryVerdict(Stripped(f), raw) == CanaryVerdict(f, raw) <==>
            (CanaryListed(Listed(f, raw, first, n), ScannedStrings(f, raw)) ||
             SomeCanary(NamesOfSyms(f.sections.symbols)) ==>
               CanaryFunction(ScannedRecords(f, raw), ScannedStrings(f, raw)))
  {
    hide Scannable, SymbolNamesPH, SomeCanary, FirstOccurrences, NamesOfSyms, ScannedRecords, ScannedStrings, NamesOf,
      SectionSyms, CanaryListed, CanaryFunction, Referenced, ImportedNames;
    StrippedScan(f, raw);
    ScanNames(f, raw);
    CanaryFunctionFound(ScannedRecords(f, raw), ScannedStrings(f, raw));
    NamesOfOption(f.sections.dynSymbols);
    CanaryListedFound(Listed(f, raw, first, n), ScannedStrings(f, raw));
    CanaryInParts(NamesOfSyms(f.sections.symbols), NamesOfSyms(f.sections.dynSymbols), SymbolNamesPH(f, raw));
    CanaryOfNames(AdvertisedNames(f, raw));
    CanaryOfNames(AdvertisedNames(Stripped(f), raw));
  }

  lemma CanaryInParts(a: seq<GoString>, b: seq<GoString>, c: seq<GoString>)
    ensures SomeCanary(a + b + c) <==> SomeCanary(a) || SomeCanary(b) || SomeCanary(c)
  {
    CanaryInConcat(a + b, c);
    CanaryInConcat(a, b);
  }

  lemma CanaryInConcat(a: seq<GoString>, b: seq<GoString>)
    ensures SomeCanary(a + b) <==> SomeCanary(a) || SomeCanary(b)
  {
    hide IsCanarySymbol;
    var s := a + b;
    assert forall i :: 0 <= i < |a| ==> s[i] == a[i];
    assert forall i :: 0 <= i < |b| ==> s[|a| + i] == b[i];
  }

  /** So it survives when canaries are functions and there is no static symbol table. */
  lemma CanaryFunctionsSurvive(f: ElfFile, raw: seq<byte>, first: nat, n: nat)
    requires Scannable(f, raw) && SharedTable(f, raw, first, n) && f.sections.symbols == None
    requires var listed, str := Listed(f, raw, first, n), ScannedStrings(f, raw);
             forall i :: 0 <= i < |listed| && IsCanarySymbol(SectionName(str, listed[i])) ==>
                           listed[i].info % 16 == STT_FUNC
    ensures Scannable(Stripped(f), raw) && CanaryVerdict(Stripped(f), raw) == CanaryVerdict(f, raw)
  {
    hide Scannable, ScannedRecords, ScannedStrings, CanaryVerdict;
    CanarySurvivesStripping(f, raw, first, n);
    EmptyNotCanary();
    hide IsCanarySymbol;
    var recs, listed, str := ScannedRecords(f, raw), Listed(f, raw, first, n), ScannedStrings(f, raw);
    if CanaryListed(listed, str) {
      var i :| 0 <= i < |listed| && IsCanarySymbol(SectionName(str, listed[i]));
      assert listed[i] == recs[first + i];
      assert IsCanaryFunction(recs[first + i], str);
    }
  }

  // ---- FORTIFY -----------------------------------------------------------

  /** Some function record has this name, without its version suffix. */
  ghost predicate FunctionBase(recs: seq<SymRecord>, str: seq<byte>, base: string) {
    exists n: GoString :: SomeNames(recs, str, n) && BaseSymbolName(n) == base
  }

  /** Every untyped symbol of the section view that counts as fortified is also present as a function. */
  ghost predicate FortifiedCovered(listed: seq<SymRecord>, recs: seq<SymRecord>, str: seq<byte>) {
    forall i :: 0 <= i < |listed| && listed[i].info % 16 == STT_NOTYPE &&
                IsFortifyChkName(BaseSymbolName(SectionName(str, listed[i]))) ==>
                  FunctionBase(recs, str, BaseSymbolName(SectionName(str, listed[i])))
  }

  /** Every symbol of the section view that counts as checkable is also present as a function. */
  ghost predicate CheckableCovered(listed: seq<SymRecord>, recs: seq<SymRecord>, str: seq<byte>) {
    forall i :: 0 <= i < |listed| && SectionName(str, listed[i]) != "" &&
                BaseSymbolName(SectionName(str, listed[i])) in CheckableBases() ==>
                  FunctionBase(recs, str, BaseSymbolName(SectionName(str, listed[i])))
  }

  /** Stripping never adds to either count. */
  lemma FortifyShrinks(f: ElfFile, raw: seq<byte>)
    requires Scannable(f, raw)
    ensures Scannable(Stripped(f), raw)
    ensures |FortifiedNames(Stripped(f), raw)| <= |FortifiedNames(f, raw)|
    ensures |Unprotected(Stripped(f), raw)| <= |Unprotected(f, raw)|
  {
    StrippedScan(f, raw);
    hide Scannable, SymbolNamesPH, FortifiedNames, Unprotected, ImportedNames, FunctionLikeNames;
    NoMembers();
    MembersConcat(FunctionLikeNames(SymsOf(f.sections.dynSymbols)) + FunctionLikeNames(SymsOf(f.sections.symbols)),
                  SymbolNamesPH(f, raw));
    FortifyMonotone(Stripped(f), raw, f, raw);
  }

  lemma MembersConcat(a: seq<string>, b: seq<string>)
    ensures Members(a + b) == Members(a) + Members(b)
  {
  }

  /** A function that the section view names is one that the scan finds. */
  lemma ListedFunction(recs: seq<SymRecord>, str: seq<byte>, i: nat)
    requires i < |recs| && recs[i].info % 16 == STT_FUNC && SectionName(str, recs[i]) != ""
    ensures FunctionBase(recs, str, BaseSymbolName(SectionName(str, recs[i])))
  {
    hide BaseSymbolName;
    assert NamesFunction(recs[i], str, SectionName(str, recs[i]));
    assert SomeNames(recs, str, SectionName(str, recs[i]));
  }

  lemma ScannedBases(recs: seq<SymRecord>, str: seq<byte>, base: string)
    ensures base in BaseNames(Members(NamesOf(recs, str))) <==> FunctionBase(recs, str, base)
    ensures base in FortifiedSet(Members(NamesOf(recs, str))) <==>
            IsFortifyChkName(base) && FunctionBase(recs, str, base)
  {
    hide NamesOf, BaseSymbolName, IsFortifyChkName, SomeNames;
    forall n: GoString
      ensures n in NamesOf(recs, str) <==> SomeNames(recs, str, n)
    {
      NamesOfExact(recs, str, n);
    }
  }

  lemma ListedImported(listed: seq<SymRecord>, str: seq<byte>, base: string)
    ensures base in BaseNames(Members(NonEmpty(NamesOfSyms(Some(SectionSyms(listed, str)))))) <==>
            exists i :: 0 <= i < |listed| && SectionName(str, listed[i]) != "" &&
                        BaseSymbolName(SectionName(str, listed[i])) == base
  {
    hide NonEmpty, SectionName, BaseSymbolName;
    var names := NamesOfSyms(Some(SectionSyms(listed, str)));
    assert |names| == |listed| && forall i :: 0 <= i < |listed| ==> names[i] == SectionName(str, listed[i]);
    if n: GoString :| n in NonEmpty(names) && BaseSymbolName(n) == base {
      NonEmptyExact(names, n);
      var i :| 0 <= i < |names| && names[i] == n;
      assert SectionName(str, listed[i]) == n;
    }
    if i :| 0 <= i < |listed| && SectionName(str, listed[i]) != "" &&
            BaseSymbolName(SectionName(str, listed[i])) == base {
      NonEmptyExact(names, names[i]);
      assert names[i] in Members(NonEmpty(names));
    }
  }

  /** Every fortified symbol of the list is also present as a function. */
  ghost predicate StaticCovered(syms: seq<Sym>, recs: seq<SymRecord>, str: seq<byte>) {
    forall i :: 0 <= i < |syms| && IsFunctionLike(syms[i]) && IsFortifyChkName(BaseSymbolName(syms[i].name)) ==>
                  FunctionBase(recs, str, BaseSymbolName(syms[i].name))
  }

  lemma StaticWithin(syms: seq<Sym>, recs: seq<SymRecord>, str: seq<byte>)
    ensures StaticCovered(syms, recs, str) <==>
            FortifiedSet(Members(FunctionLikeNames(syms))) <= FortifiedSet(Members(NamesOf(recs, str)))
  {
    hide NamesOf, FunctionLikeNames, FunctionBase, IsFortifyChkName, BaseSymbolName, IsFunctionLike;
    var names, p := FunctionLikeNames(syms), FortifiedSet(Members(NamesOf(recs, str)));
    var l := FortifiedSet(Members(names));
    if StaticCovered(syms, recs, str) {
      forall base | base in l
        ensures base in p
      {
        var name :| name in Members(names) && IsFortifyChkName(BaseSymbolName(name)) && BaseSymbolName(name) == base;
        FunctionLikeExact(syms, name);
        var i :| 0 <= i < |syms| && IsFunctionLike(syms[i]) && syms[i].name == name;
        ScannedBases(recs, str, base);
      }
    }
    if l <= p {
      forall i | 0 <= i < |syms| && IsFunctionLike(syms[i]) && IsFortifyChkName(BaseSymbolName(syms[i].name))
        ensures FunctionBase(recs, str, BaseSymbolName(syms[i].name))
      {
        FunctionLikeExact(syms, syms[i].name);
        assert syms[i].name in Members(names);
        ScannedBases(recs, str, BaseSymbolName(syms[i].name));
      }
    }
  }

  /** Among the listed fortified names only those of untyped symbols can be lost. */
  lemma FortifiedWithin(recs: seq<SymRecord>, str: seq<byte>, first: nat, n: nat)
    requires first <= n <= |recs|
    ensures FortifiedCovered(recs[first..n], recs, str) <==> StaticCovered(SectionSyms(recs[first..n], str), recs, str)
  {
    hide FunctionBase, IsFortifyChkName, SectionName, BaseSymbolName;
    var listed := recs[first..n];
    var syms := SectionSyms(listed, str);
    if FortifiedCovered(listed, recs, str) {
      forall i | 0 <= i < |syms| && IsFunctionLike(syms[i]) && IsFortifyChkName(BaseSymbolName(syms[i].name))
        ensures FunctionBase(recs, str, BaseSymbolName(syms[i].name))
      {
        if listed[i].info % 16 == STT_FUNC {
          ListedFunction(recs, str, first + i);
        }
      }
    }
    if StaticCovered(syms, recs, str) {
      forall i | 0 <= i < |listed| && listed[i].info % 16 == STT_NOTYPE &&
                 IsFortifyChkName(BaseSymbolName(SectionName(str, listed[i])))
        ensures FunctionBase(recs, str, BaseSymbolName(SectionName(str, listed[i])))
      {
        NamelessNotFortified(SectionName(str, listed[i]));
        assert IsFunctionLike(syms[i]);
      }
    }
  }

  lemma NamelessNotFortified(n: GoString)
    requires IsFortifyChkName(BaseSymbolName(n))
    ensures n != ""
  {
  }

  lemma CheckableWithin(recs: seq<SymRecord>, str: seq<byte>, first: nat, n: nat)
    requires first <= n <= |recs|
    ensures CheckableCovered(recs[first..n], recs, str) <==>
            CheckableBases() * BaseNames(Members(NonEmpty(NamesOfSyms(Some(SectionSyms(recs[first..n], str)))))) <=
              BaseNames(Members(NamesOf(recs, str)))
  {
    hide NamesOf, NonEmpty, NamesOfSyms, BaseNames, SectionSyms, FunctionBase, SectionName, BaseSymbolName,
      CheckableBases;
    var listed := recs[first..n];
    var l := BaseNames(Members(NonEmpty(NamesOfSyms(Some(SectionSyms(listed, str))))));
    var p := BaseNames(Members(NamesOf(recs, str)));
    if CheckableCovered(listed, recs, str) {
      forall base | base in CheckableBases() * l
        ensures base in p
      {
        ListedImported(listed, str, base);
        ScannedBases(recs, str, base);
      }
    }
    if CheckableBases() * l <= p {
      forall i | 0 <= i < |listed| && SectionName(str, listed[i]) != "" &&
                 BaseSymbolName(SectionName(str, listed[i])) in CheckableBases()
        ensures FunctionBase(recs, str, BaseSymbolName(SectionName(str, listed[i])))
      {
        var base := BaseSymbolName(SectionName(str, listed[i]));
        ListedImported(listed, str, base);
        ScannedBases(recs, str, base);
      }
    }
  }

  lemma FortifiedSetUnion(a: set<string>, b: set<string>)
    ensures FortifiedSet(a + b) == FortifiedSet(a) + FortifiedSet(b)
  {
    hide IsFortifyChkName, BaseSymbolName;
  }

  lemma WithinThree(l: set<string>, s: set<string>, p: set<string>)
    ensures l + s + p == p <==> l <= p && s <= p
  {
  }

  /** The fortified set before and after stripping: what the two symbol lists add can be lost. */
  lemma FortifiedParts(f: ElfFile, raw: seq<byte>)
    requires Scannable(f, raw)
    ensures Scannable(Stripped(f), raw)
    ensures FortifiedSet(Members(Referenced(f, raw))) ==
            FortifiedSet(Members(FunctionLikeNames(SymsOf(f.sections.dynSymbols)))) +
            FortifiedSet(Members(FunctionLikeNames(SymsOf(f.sections.symbols)))) +
            FortifiedSet(Members(SymbolNamesPH(f, raw)))
    ensures FortifiedSet(Members(Referenced(Stripped(f), raw))) == FortifiedSet(Members(SymbolNamesPH(f, raw)))
  {
    hide Scannable, SymbolNamesPH, FortifiedSet, Members, FunctionLikeNames, SymsOf;
    StrippedScan(f, raw);
    var a, b := FunctionLikeNames(SymsOf(f.sections.dynSymbols)), FunctionLikeNames(SymsOf(f.sections.symbols));
    MembersConcat(a + b, SymbolNamesPH(f, raw));
    MembersConcat(a, b);
    FortifiedSetUnion(Members(a) + Members(b), Members(SymbolNamesPH(f, raw)));
    FortifiedSetUnion(Members(a), Members(b));
  }

  /** The sorted lists are equal when their sets are. */
  lemma SameFortified(f: ElfFile, raw: seq<byte>, g: ElfFile)
    requires Scannable(f, raw) && Scannable(g, raw)
    ensures FortifiedNames(g, raw) == FortifiedNames(f, raw) <==>
            FortifiedSet(Members(Referenced(g, raw))) == FortifiedSet(Members(Referenced(f, raw)))
  {
    hide Scannable, Referenced, FortifiedNames, FortifiedSet, Sorted;
    FortifiedExact(f, raw);
    FortifiedExact(g, raw);
    if FortifiedSet(Members(Referenced(g, raw))) == FortifiedSet(Members(Referenced(f, raw))) {
      SortedUnique(FortifiedNames(g, raw), FortifiedNames(f, raw));
    }
  }

  /** The fortified list survives stripping if and only if each fortified name of an untyped dynamic symbol and of
      a static symbol is also that of a function record. */
  lemma FortifiedSurvivesStripping(f: ElfFile, raw: seq<byte>, first: nat, n: nat)
    requires Scannable(f, raw) && SharedTable(f, raw, first, n)
    ensures Scannable(Stripped(f), raw)
    ensures FortifiedNames(Stripped(f), raw) == FortifiedNames(f, raw) <==>
            && FortifiedCovered(Listed(f, raw, first, n), ScannedRecords(f, raw), ScannedStrings(f, raw))
            && StaticCovered(SymsOf(f.sections.symbols), ScannedRecords(f, raw), ScannedStrings(f, raw))
  {
    hide Scannable, SymbolNamesPH, ScannedRecords, ScannedStrings, NamesOf, SectionSyms, FortifiedNames,
      FortifiedCovered, StaticCovered, FunctionLikeNames, FortifiedSet, SymsOf, Members, Referenced;
    FortifiedParts(f, raw);
    ScanNames(f, raw);
    SameFortified(f, raw, Stripped(f));
    var recs, str := ScannedRecords(f, raw), ScannedStrings(f, raw);
    FortifiedWithin(recs, str, first, n);
    StaticWithin(SectionSyms(recs[first..n], str), recs, str);
    StaticWithin(SymsOf(f.sections.symbols), recs, str);
    WithinThree(FortifiedSet(Members(FunctionLikeNames(SymsOf(f.sections.dynSymbols)))),
                FortifiedSet(Members(FunctionLikeNames(SymsOf(f.sections.symbols)))),
                FortifiedSet(Members(NamesOf(recs, str))));
  }

  /** The unprotected functions survive stripping if and only if each checkable symbol is also a function. */
  lemma UnprotectedSurvivesStripping(f: ElfFile, raw: seq<byte>, first: nat, n: nat)
    requires Scannable(f, raw) && SharedTable(f, raw, first, n)
    ensures Scannable(Stripped(f), raw)
    ensures Unprotected(Stripped(f), raw) == Unprotected(f, raw) <==>
            CheckableCovered(Listed(f, raw, first, n), ScannedRecords(f, raw), ScannedStrings(f, raw))
  {
    hide Scannable, SymbolNamesPH, ScannedRecords, ScannedStrings, NamesOf, SectionSyms, CheckableCovered, NonEmpty,
      NamesOfSyms, Referenced, BaseNames, CheckableBases, Members;
    StrippedScan(f, raw);
    ScanNames(f, raw);
    var recs, str := ScannedRecords(f, raw), ScannedStrings(f, raw);
    CheckableWithin(recs, str, first, n);
    NamesOfOption(f.sections.dynSymbols);
    var own, scanned := Members(ImportedNames(f)), Members(NamesOf(recs, str));
    NoMembers();
    assert Members([]) + scanned == scanned;
    BaseNamesUnion(own, scanned);
    AddedWithin(CheckableBases(), BaseNames(own), BaseNames(scanned));
    assert Unprotected(f, raw) == CheckableBases() * BaseNames(own + scanned);
    assert Unprotected(Stripped(f), raw) == CheckableBases() * BaseNames(scanned);
  }

  lemma AddedWithin(c: set<string>, l: set<string>, p: set<string>)
    ensures c * p == c * (l + p) <==> c * l <= p
  {
    assert c * (l + p) == c * l + c * p;
  }

  lemma {:induction false} ItoaInjective(a: nat, b: nat)
    requires Itoa(a) == Itoa(b)
    ensures a == b
  {
    ItoaLast(a);
    ItoaLast(b);
    if a >= 10 {
      ItoaInjective(a / 10, b / 10);
    }
  }

  lemma ItoaLast(n: nat)
    ensures |Itoa(n)| > 0 && Itoa(n)[|Itoa(n)| - 1] == DIGITS[n % 10]
    ensures n < 10 <==> |Itoa(n)| == 1
    ensures n >= 10 ==> Itoa(n)[..|Itoa(n)| - 1] == Itoa(n / 10)
  {
  }

  lemma SubsetSameSize(a: set<string>, b: set<string>)
    requires a <= b
    ensures |a| == |b| <==> a == b
  {
    if a != b {
      var x :| x in b && x !in a;
      SubsetCount(a, b - {x});
    }
  }

  /** Equal counts already mean equal lists, because stripping only removes. */
  lemma CountsDecide(f: ElfFile, raw: seq<byte>)
    requires Scannable(f, raw)
    ensures Scannable(Stripped(f), raw)
    ensures |FortifiedNames(Stripped(f), raw)| == |FortifiedNames(f, raw)| <==>
            FortifiedNames(Stripped(f), raw) == FortifiedNames(f, raw)
    ensures |Unprotected(Stripped(f), raw)| == |Unprotected(f, raw)| <==>
            Unprotected(Stripped(f), raw) == Unprotected(f, raw)
  {
    hide Scannable, SymbolNamesPH, FortifiedNames, FortifiedSet, Members, Referenced, FunctionLikeNames, CheckableBases,
      ImportedNames, BaseNames, Sorted;
    StrippedScan(f, raw);
    FortifiedParts(f, raw);
    FortifiedExact(f, raw);
    FortifiedExact(Stripped(f), raw);
    SameFortified(f, raw, Stripped(f));
    SubsetSameSize(FortifiedSet(Members(Referenced(Stripped(f), raw))), FortifiedSet(Members(Referenced(f, raw))));
    BaseNamesUnion(Members(ImportedNames(f)), Members(SymbolNamesPH(f, raw)));
    NoMembers();
    assert {} + Members(SymbolNamesPH(f, raw)) == Members(SymbolNamesPH(f, raw));
    SubsetSameSize(Unprotected(Stripped(f), raw), Unprotected(f, raw));
  }

  /** Two FORTIFY results of binaries with a libc agree exactly when both counts do. */
  lemma CountsShown(f: ElfFile, raw: seq<byte>, g: ElfFile)
    requires Scannable(f, raw) && Scannable(g, raw)
    ensures FortifyVerdict(g, raw, false) == FortifyVerdict(f, raw, false) <==>
            |FortifiedNames(g, raw)| == |FortifiedNames(f, raw)| && |Unprotected(g, raw)| == |Unprotected(f, raw)|
  {
    hide Scannable, FortifiedNames, Unprotected, Itoa;
    var a, b := |FortifiedNames(g, raw)|, |FortifiedNames(f, raw)|;
    var c, d := a + |Unprotected(g, raw)|, b + |Unprotected(f, raw)|;
    if Itoa(a) == Itoa(b) {
      ItoaInjective(a, b);
    }
    if Itoa(c) == Itoa(d) {
      ItoaInjective(c, d);
    }
  }

  /** Without a libc, or with one in one view only, the results agree only for files without static symbols. */
  lemma NoneShown(f: ElfFile, raw: seq<byte>, g: ElfFile)
    requires Scannable(f, raw) && Scannable(g, raw) && g.sections.symbols == None
    ensures FortifyVerdict(g, raw, true) == FortifyVerdict(f, raw, true) <==> f.sections.symbols.None?
    ensures FortifyVerdict(g, raw, true) != FortifyVerdict(f, raw, false)
    ensures FortifyVerdict(g, raw, false) != FortifyVerdict(f, raw, true)
  {
    hide Scannable, FortifiedNames, Unprotected, Itoa;
  }

  /** When the FORTIFY result survives stripping: the libc decision does, and without a libc there was no static
      symbol table, while with one all fortified and checkable names are also those of function records. */
  ghost predicate FortifyCovered(f: ElfFile, raw: seq<byte>, first: nat, n: nat)
    requires Scannable(f, raw) && SharedTable(f, raw, first, n)
  {
    var listed, recs, str := Listed(f, raw, first, n), ScannedRecords(f, raw), ScannedStrings(f, raw);
    && (!HasSegment(f.progs, PT_DYNAMIC) || !LibcOnlyUnterminated(f.sections.dynstr, f.sections.dynamic))
    && if NoLibc(f, raw) then f.sections.symbols.None?
       else
         && FortifiedCovered(listed, recs, str) && StaticCovered(SymsOf(f.sections.symbols), recs, str)
         && CheckableCovered(listed, recs, str)
  }

  /** The FORTIFY result that the report shows survives stripping if and only if the file meets FortifyCovered. */
  lemma FortifySurvivesStripping(f: ElfFile, raw: seq<byte>, first: nat, n: nat)
    requires Scannable(f, raw) && SharedTable(f, raw, first, n) && SameStrings(f, raw)
    ensures Scannable(Stripped(f), raw)
    ensures FortifyVerdict(Stripped(f), raw, NoLibc(Stripped(f), raw)) == FortifyVerdict(f, raw, NoLibc(f, raw)) <==>
            FortifyCovered(f, raw, first, n)
  {
    hide Scannable, ScannedRecords, ScannedStrings, FortifiedNames, FortifiedCovered, StaticCovered, CheckableCovered,
      Unprotected, NoLibc, LibcOnlyUnterminated, SameStrings, SharedTable, Listed, FortifyVerdict, HasSegment;
    FortifiedSurvivesStripping(f, raw, first, n);
    UnprotectedSurvivesStripping(f, raw, first, n);
    LibcSurvivesStripping(f, raw);
    CountsDecide(f, raw);
    CountsShown(f, raw, Stripped(f));
    NoneShown(f, raw, Stripped(f));
  }
}
