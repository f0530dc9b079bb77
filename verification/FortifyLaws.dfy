/** What the FORTIFY analysis lists and counts, in terms of the names in the file. */
module FortifyLaws {
  import opened Bytes
  import opened Strings
  import opened Results
  import opened Elf
  import opened Dyn
  import opened DetectorLaws
  import opened Fortify

  // ---- Names -------------------------------------------------------------

  /** "__" in front and the suffix behind: they may share one underscore. */
  lemma BetweenExact(n: string, suffix: string)
    requires |suffix| >= 2 && suffix[0] == '_' && suffix[1] != '_'
    ensures HasPrefix(n, "__") && HasSuffix(n, suffix) <==>
            n == "_" + suffix || exists m: string :: n == "__" + m + suffix
  {
    if HasPrefix(n, "__") && HasSuffix(n, suffix) {
      var at := |n| - |suffix|;
      assert n == n[..at] + suffix;
      if at == 0 {
        assert false;
      } else if at == 1 {
        assert n[..1] == "_";
      } else {
        assert n[..at] == "__" + n[2..at];
      }
    }
    if m: string :| n == "__" + m + suffix {
      assert n[|m| + 2..] == suffix;
    }
  }

  /** A fortified name is "__", anything, "_chk" or "_chkieee128"; the anything may lack its underscore. */
  lemma PatternExact(n: string)
    ensures IsFortifyChkName(n) <==>
            || n == "__chk" || (exists m: string :: n == "__" + m + "_chk")
            || n == "__chkieee128" || (exists m: string :: n == "__" + m + "_chkieee128")
  {
    hide HasPrefix, HasSuffix;
    BetweenExact(n, "_chk");
    BetweenExact(n, "_chkieee128");
  }

  /** `s` is the name `n`, with or without a version behind an at sign. */
  ghost predicate Names(s: string, n: string) {
    '@' !in n && (s == n || exists version: string :: s == n + "@" + version)
  }

  lemma AtOfPrefix(s: string, n: string, i: nat)
    requires |n| < |s| && i <= |s| && n == s[..|n|] && '@' !in n && s[|n|] == '@'
    requires '@' !in s[..i] && (i == |s| || s[i] == '@')
    ensures i == |n|
  {
    if |n| < i {
      assert false;
    } else if i < |n| {
      assert false;
    }
  }

  /** What the analysis takes for the name is the part before the first at sign. */
  lemma BaseSymbolNameExact(s: string, n: string)
    ensures n == BaseSymbolName(s) <==> Names(s, n)
  {
    var i := IndexOf(s, '@');
    if i < |s| {
      assert s == s[..i] + "@" + s[i + 1..];
    } else {
      assert s[..i] == s;
    }
    if Names(s, n) && s != n {
      var version: string :| s == n + "@" + version;
      assert s[|n|] == '@';
      assert s[..|n|] == n;
      AtOfPrefix(s, n, i);
    }
  }

  // ---- Numbers as text ---------------------------------------------------

  predicate AllDigits(s: string) {
    forall i :: 0 <= i < |s| ==> '0' <= s[i] <= '9'
  }

  /** The number that decimal digits denote. */
  function Decimal(s: string): nat
    requires AllDigits(s)
  {
    if s == "" then 0 else 10 * Decimal(s[..|s| - 1]) + (s[|s| - 1] - '0') as nat
  }

  /** A count is shown by its decimal digits, without a leading zero. */
  lemma {:induction false} ItoaExact(n: nat)
    ensures AllDigits(Itoa(n)) && Decimal(Itoa(n)) == n
    ensures Itoa(n) != "" && (Itoa(n)[0] == '0' ==> n == 0)
  {
    DigitsInOrder(n % 10);
    if n < 10 {
      assert Itoa(n)[..0] == "";
    } else {
      ItoaExact(n / 10);
      assert Itoa(n)[..|Itoa(n)| - 1] == Itoa(n / 10);
    }
  }

  lemma DigitsInOrder(d: nat)
    requires d < 10
    ensures '0' <= DIGITS[d] <= '9' && (DIGITS[d] - '0') as nat == d
  {
  }

  // ---- Fortified calls ---------------------------------------------------

  /** The table has a function or untyped symbol of that name. */
  predicate ListsFunction(syms: Option<seq<Sym>>, s: GoString) {
    syms.Some? && exists i :: 0 <= i < |syms.value| && syms.value[i].name == s && syms.value[i].info % 16 in {0, 2}
  }

  lemma ListedExact(syms: seq<Sym>, s: GoString)
    ensures s in FunctionLikeNames(syms) <==> s != "" && ListsFunction(Some(syms), s)
  {
    FunctionLikeExact(syms, s);
    if i :| 0 <= i < |syms| && IsFunctionLike(syms[i]) && syms[i].name == s {
      assert syms[i].name == s && syms[i].info % 16 in {0, 2};
    }
    if s != "" && ListsFunction(Some(syms), s) {
      var i :| 0 <= i < |syms| && syms[i].name == s && syms[i].info % 16 in {0, 2};
      assert IsFunctionLike(syms[i]);
    }
  }

  lemma ReferencedExact(f: ElfFile, raw: seq<byte>, s: GoString)
    requires Scannable(f, raw)
    ensures s != "" ==>
              (s in Referenced(f, raw) <==>
               || ListsFunction(f.sections.dynSymbols, s) || ListsFunction(f.sections.symbols, s)
               || s in SymbolNamesPH(f, raw))
  {
    hide SymbolNamesPH, FunctionLikeNames, ListsFunction, Scannable;
    ListedExact(SymsOf(f.sections.dynSymbols), s);
    ListedExact(SymsOf(f.sections.symbols), s);
    NothingListed(s);
  }

  lemma NothingListed(s: GoString)
    ensures !ListsFunction(None, s) && !ListsFunction(Some([]), s)
  {
  }

  /** A name is listed as fortified when it matches the pattern and is, up to its version, that of a function or
      untyped symbol in a section table or of a function that the program headers name. */
  lemma FortifiedMeaning(f: ElfFile, raw: seq<byte>, n: string)
    requires Scannable(f, raw)
    ensures n in FortifiedNames(f, raw) <==>
            && (n == "__chk" || n == "__chkieee128" || (exists m: string :: n == "__" + m + "_chk")
                || (exists m: string :: n == "__" + m + "_chkieee128"))
            && exists s: GoString ::
                 && Names(s, n)
                 && (ListsFunction(f.sections.dynSymbols, s) || ListsFunction(f.sections.symbols, s) ||
                     s in SymbolNamesPH(f, raw))
  {
    hide FortifiedNames, Referenced, IsFortifyChkName, BaseSymbolName, Names, ListsFunction, SymbolNamesPH, Scannable,
      FortifiedSet;
    FortifiedExact(f, raw);
    PatternExact(n);
    assert n in FortifiedNames(f, raw) <==> n in FortifiedSet(Members(Referenced(f, raw)));
    InFortifiedSet(Members(Referenced(f, raw)), n);
    if IsFortifyChkName(n) {
      forall s: GoString
        ensures Names(s, n) ==>
                  (s in Referenced(f, raw) <==>
                   || ListsFunction(f.sections.dynSymbols, s) || ListsFunction(f.sections.symbols, s)
                   || s in SymbolNamesPH(f, raw))
      {
        ReferencedExact(f, raw, s);
        EmptyNamesNothing(n);
      }
      forall s: string
        ensures BaseSymbolName(s) == n <==> Names(s, n)
      {
        BaseSymbolNameExact(s, n);
      }
    }
  }

  lemma InFortifiedSet(names: set<string>, n: string)
    ensures n in FortifiedSet(names) <==> IsFortifyChkName(n) && exists s :: s in names && BaseSymbolName(s) == n
  {
    hide IsFortifyChkName, BaseSymbolName;
  }

  lemma EmptyNamesNothing(n: string)
    requires IsFortifyChkName(n)
    ensures !Names("", n)
  {
  }

  // ---- Unprotected calls -------------------------------------------------

  lemma InUnprotected(f: ElfFile, raw: seq<byte>, n: string)
    requires Scannable(f, raw)
    ensures n in Unprotected(f, raw) <==>
            && n in CheckableBases()
            && exists s: string ::
                 && s in Members(ImportedNames(f)) + Members(SymbolNamesPH(f, raw))
                 && BaseSymbolName(s) == n
  {
    hide CheckableBases, BaseSymbolName, ImportedNames, SymbolNamesPH, Members;
  }

  lemma CheckableExact(n: string)
    ensures n in CheckableBases() <==> "__" + n + "_chk" in SUPPORTED_CHK
    ensures n in CheckableBases() ==> n != ""
  {
    hide FortifyBaseName, WellFormedChk;
    if n in CheckableBases() {
      var chk :| chk in SUPPORTED_CHK && FortifyBaseName(chk) == n;
      var i :| 0 <= i < |SUPPORTED_CHK| && SUPPORTED_CHK[i] == chk;
      BaseNameFacts(SUPPORTED_CHK[i]);
      BaseNotEmpty(SUPPORTED_CHK[i]);
    }
    if "__" + n + "_chk" in SUPPORTED_CHK {
      var i :| 0 <= i < |SUPPORTED_CHK| && SUPPORTED_CHK[i] == "__" + n + "_chk";
      BaseNameFacts(SUPPORTED_CHK[i]);
      MiddleUnique(n, FortifyBaseName(SUPPORTED_CHK[i]));
    }
  }

  lemma BaseNotEmpty(chk: ChkName)
    ensures FortifyBaseName(chk) != ""
  {
    BaseIsMiddle(chk);
  }

  lemma MiddleUnique(a: string, b: string)
    requires "__" + a + "_chk" == "__" + b + "_chk"
    ensures a == b
  {
    var s, t := "__" + a + "_chk", "__" + b + "_chk";
    assert a == s[2..|a| + 2] && b == t[2..|b| + 2];
  }

  lemma ImportedExact(f: ElfFile, s: GoString)
    requires s != ""
    ensures s in ImportedNames(f) <==> NamesSymbol(f.sections.dynSymbols, s)
  {
    NonEmptyExact(NamesOfSyms(f.sections.dynSymbols), s);
    NamesOfTable(f.sections.dynSymbols, s);
  }

  /** A function is called without its check when the universe has its checked variant and the function is, up to
      its version, named by any dynamic symbol or by a function that the program headers name. */
  lemma UnprotectedMeaning(f: ElfFile, raw: seq<byte>, n: string)
    requires Scannable(f, raw)
    ensures n in Unprotected(f, raw) <==>
            && "__" + n + "_chk" in SUPPORTED_CHK
            && exists s: GoString ::
                 Names(s, n) && (NamesSymbol(f.sections.dynSymbols, s) || s in SymbolNamesPH(f, raw))
  {
    hide Unprotected, CheckableBases, BaseSymbolName, Names, NamesSymbol, SymbolNamesPH, Scannable, SUPPORTED_CHK,
      ImportedNames;
    InUnprotected(f, raw, n);
    CheckableExact(n);
    if n in CheckableBases() {
      forall s: GoString
        ensures Names(s, n) ==> (s in ImportedNames(f) <==> NamesSymbol(f.sections.dynSymbols, s))
      {
        EmptyNamesEmpty(n);
        if s != "" {
          ImportedExact(f, s);
        }
      }
      forall s: string
        ensures BaseSymbolName(s) == n <==> Names(s, n)
      {
        BaseSymbolNameExact(s, n);
      }
    }
  }

  lemma EmptyNamesEmpty(n: string)
    ensures Names("", n) ==> n == ""
  {
  }

  /** The universe has 84 checked functions. */
  lemma UniverseSize()
    ensures |SUPPORTED_CHK| == 84
  {
  }

  // ---- The three results -------------------------------------------------

  /** With a libc: the summary is good with a fortified name, a warning with unprotected ones only, and the counts are
      shown in decimal. */
  lemma FortifyMeaning(f: ElfFile, raw: seq<byte>)
    requires Scannable(f, raw)
    ensures var r, n, u := FortifyVerdict(f, raw, false), |FortifiedNames(f, raw)|, |Unprotected(f, raw)|;
            && r.summary == (if n > 0 then Result("Yes", Good)
                             else if u > 0 then Result("No", Warn)
                             else Result("No fortifiable calls", Info))
            && r.fortified.status == Info && r.fortifiable.status == Info
            && AllDigits(r.fortified.value) && Decimal(r.fortified.value) == n
            && AllDigits(r.fortifiable.value) && Decimal(r.fortifiable.value) == n + u
  {
    hide FortifiedNames, Unprotected, Itoa, AllDigits, Decimal, Scannable;
    ItoaExact(|FortifiedNames(f, raw)|);
    ItoaExact(|FortifiedNames(f, raw)| + |Unprotected(f, raw)|);
  }

  /** Without one: nothing is judged unless there is a static symbol table, and fortifiable calls never are. */
  lemma FortifyWithoutLibc(f: ElfFile, raw: seq<byte>)
    requires Scannable(f, raw)
    ensures var r, n := FortifyVerdict(f, raw, true), |FortifiedNames(f, raw)|;
            && r.fortifiable == Result("N/A", NA)
            && (f.sections.symbols == None ==> r.summary == Result("N/A", NA) && r.fortified == Result("N/A", NA))
            && (f.sections.symbols != None ==>
                  && r.summary == (if n > 0 then Result("Fortified calls found", Good)
                                   else Result("No fortified calls", Info))
                  && r.fortified.status == Info
                  && AllDigits(r.fortified.value) && Decimal(r.fortified.value) == n)
  {
    hide FortifiedNames, Itoa, Scannable;
    ItoaExact(|FortifiedNames(f, raw)|);
    assert "0"[..0] == "";
  }
}
