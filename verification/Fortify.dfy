/** FORTIFY_SOURCE coverage: fortified calls by name pattern, fortifiable calls by a fixed universe. */
module Fortify {
  import opened Bytes
  import opened Strings
  import opened Results
  import opened Elf
  import opened Dyn
  import opened DynProperties

  // ---- The universe of checkable functions -------------------------------

  /** The shape of every name in the universe. */
  predicate WellFormedChk(n: string) {
    var end := |n| - 4;
    && |n| >= 7
    && n[0] == '_' && n[1] == '_' && n[2] != '_'
    && n[end] == '_' && n[end + 1] == 'c' && n[end + 2] == 'h' && n[end + 3] == 'k'
  }

  type ChkName = n: string | WellFormedChk(n) witness "__memcpy_chk"

  const MEMORY_CHK: seq<ChkName> := [
    "__memcpy_chk", "__memmove_chk", "__mempcpy_chk", "__memset_chk", "__memccpy_chk", "__explicit_bzero_chk"]

  const STRING_CHK: seq<ChkName> := [
    "__stpcpy_chk", "__stpncpy_chk", "__strcat_chk", "__strcpy_chk", "__strncat_chk", "__strncpy_chk", "__strlen_chk",
    "__strlcat_chk", "__strlcpy_chk"]

  const OUTPUT_CHK: seq<ChkName> := [
    "__snprintf_chk", "__sprintf_chk", "__vsnprintf_chk", "__vsprintf_chk", "__fprintf_chk", "__printf_chk"]

  const OUTPUT_MORE_CHK: seq<ChkName> := [
    "__vfprintf_chk", "__vprintf_chk", "__asprintf_chk", "__vasprintf_chk", "__dprintf_chk", "__vdprintf_chk"]

  const LOG_CHK: seq<ChkName> := [
    "__syslog_chk", "__vsyslog_chk", "__obstack_printf_chk", "__obstack_vprintf_chk"]

  const WIDE_CHK: seq<ChkName> := [
    "__fwprintf_chk", "__vfwprintf_chk", "__wprintf_chk", "__vwprintf_chk", "__swprintf_chk", "__vswprintf_chk"]

  const WIDE_STRING_CHK: seq<ChkName> := [
    "__wcpcpy_chk", "__wcpncpy_chk", "__wcscat_chk", "__wcscpy_chk", "__wcsncat_chk", "__wcsncpy_chk"]

  const WIDE_MEMORY_CHK: seq<ChkName> := [
    "__wmemcpy_chk", "__wmemmove_chk", "__wmempcpy_chk", "__wmemset_chk", "__wcrtomb_chk", "__wctomb_chk"]

  const MULTIBYTE_CHK: seq<ChkName> := [
    "__mbsnrtowcs_chk", "__mbsrtowcs_chk", "__mbstowcs_chk"]

  const MULTIBYTE_MORE_CHK: seq<ChkName> := [
    "__wcsnrtombs_chk", "__wcsrtombs_chk", "__wcstombs_chk", "__wdunderflow_chk"]

  const INPUT_CHK: seq<ChkName> := [
    "__gets_chk", "__fgets_chk", "__fgets_unlocked_chk", "__fgetws_chk", "__fgetws_unlocked_chk", "__fread_chk",
    "__fread_unlocked_chk"]

  const IO_CHK: seq<ChkName> := [
    "__read_chk", "__pread_chk", "__pread64_chk", "__readlink_chk", "__readlinkat_chk", "__realpath_chk"]

  const SOCKET_CHK: seq<ChkName> := [
    "__recv_chk", "__recvfrom_chk", "__send_chk", "__poll_chk", "__ppoll_chk"]

  const SYSTEM_CHK: seq<ChkName> := [
    "__confstr_chk", "__getcwd_chk", "__getdomainname_chk", "__getgroups_chk", "__gethostname_chk"]

  const SYSTEM_MORE_CHK: seq<ChkName> := [
    "__getlogin_r_chk", "__getwd_chk", "__ptsname_r_chk", "__ttyname_r_chk", "__longjmp_chk"]

  const SUPPORTED_CHK: seq<ChkName> :=
    MEMORY_CHK + STRING_CHK + OUTPUT_CHK + OUTPUT_MORE_CHK + LOG_CHK + WIDE_CHK + WIDE_STRING_CHK + WIDE_MEMORY_CHK +
    MULTIBYTE_CHK + MULTIBYTE_MORE_CHK + INPUT_CHK + IO_CHK + SOCKET_CHK + SYSTEM_CHK + SYSTEM_MORE_CHK

  // ---- Names -------------------------------------------------------------

  predicate IsFortifyChkName(name: string) {
    HasPrefix(name, "__") && (HasSuffix(name, "_chk") || HasSuffix(name, "_chkieee128"))
  }

  /** The name without its version suffix. */
  function BaseSymbolName(n: string): string {
    n[..IndexOf(n, '@')]
  }

  function FortifyBaseName(chk: string): string {
    TrimSuffix(TrimPrefix(chk, "__"), "_chk")
  }

  /** A base name determines its checked variant, and is never itself a fortified name. */
  lemma BaseNameFacts(chk: ChkName)
    ensures chk == "__" + FortifyBaseName(chk) + "_chk"
    ensures !IsFortifyChkName(FortifyBaseName(chk))
  {
    var base := chk[2..|chk| - 4];
    BaseIsMiddle(chk);
    assert chk == chk[..2] + base + chk[|chk| - 4..];
    assert base[0] == chk[2];
  }

  lemma BaseIsMiddle(chk: ChkName)
    ensures FortifyBaseName(chk) == chk[2..|chk| - 4]
  {
    var rest := chk[2..];
    assert TrimPrefix(chk, "__") == rest;
    assert rest[|rest| - 4..] == chk[|chk| - 4..];
    assert rest[..|rest| - 4] == chk[2..|chk| - 4];
  }

  /** Base names are injective on the universe, and no base name matches the fortified pattern. */
  lemma UniverseBases(a: string, b: string)
    requires a in SUPPORTED_CHK && b in SUPPORTED_CHK
    ensures FortifyBaseName(a) == FortifyBaseName(b) ==> a == b
    ensures !IsFortifyChkName(FortifyBaseName(a))
  {
    hide WellFormedChk;
    var i :| 0 <= i < |SUPPORTED_CHK| && SUPPORTED_CHK[i] == a;
    var j :| 0 <= j < |SUPPORTED_CHK| && SUPPORTED_CHK[j] == b;
    BaseNameFacts(SUPPORTED_CHK[i]);
    BaseNameFacts(SUPPORTED_CHK[j]);
  }

  // ---- Sorting -----------------------------------------------------------

  function Insert(s: seq<string>, x: string): (r: seq<string>)
  {
    if s == [] then [x]
    else if StrLe(x, s[0]) then [x] + s
    else [s[0]] + Insert(s[1..], x)
  }

  /** Ascending order, as the library sort leaves it. */
  function SortStrings(s: seq<string>): seq<string> {
    if s == [] then [] else Insert(SortStrings(s[..|s| - 1]), s[|s| - 1])
  }

  lemma {:induction false} InsertMembers(s: seq<string>, x: string, y: string)
    ensures y in Insert(s, x) <==> y == x || y in s
  {
    if s != [] && !StrLe(x, s[0]) {
      InsertMembers(s[1..], x, y);
      assert y in s <==> y == s[0] || y in s[1..];
    }
  }

  lemma {:induction false} InsertAdds(s: seq<string>, x: string)
    ensures multiset(Insert(s, x)) == multiset(s) + multiset{x}
  {
    if s != [] && !StrLe(x, s[0]) {
      InsertAdds(s[1..], x);
      assert s == [s[0]] + s[1..];
    }
  }

  lemma {:induction false} InsertSorted(s: seq<string>, x: string)
    requires Sorted(s)
    ensures Sorted(Insert(s, x))
  {
    if s != [] {
      if StrLe(x, s[0]) {
        forall i | 0 <= i < |s|
          ensures StrLe(x, s[i])
        {
          if i > 0 {
            StrLeTransitive(x, s[0], s[i]);
          }
        }
      } else {
        InsertSorted(s[1..], x);
        StrLeTotal(x, s[0]);
        var rest := Insert(s[1..], x);
        forall i | 0 <= i < |rest|
          ensures StrLe(s[0], rest[i])
        {
          InsertMembers(s[1..], x, rest[i]);
          assert rest[i] == x || rest[i] in s[1..];
        }
      }
    }
  }

  /** Sorting permutes the strings into ascending order. */
  lemma {:induction false} SortExact(s: seq<string>)
    ensures Sorted(SortStrings(s)) && multiset(SortStrings(s)) == multiset(s)
  {
    if s != [] {
      var before, last := s[..|s| - 1], s[|s| - 1];
      SortExact(before);
      InsertSorted(SortStrings(before), last);
      InsertAdds(SortStrings(before), last);
      assert s == before + [last];
    }
  }

  lemma PermutationFacts(a: seq<string>, b: seq<string>)
    requires multiset(a) == multiset(b)
    ensures |a| == |b| && forall x :: x in a <==> x in b
  {
    assert |a| == |multiset(a)| && |b| == |multiset(b)|;
    assert forall x :: x in a <==> x in multiset(a);
    assert forall x :: x in b <==> x in multiset(b);
  }

  // ---- Fortified names ---------------------------------------------------

  predicate IsFunctionLike(s: Sym) {
    s.name != "" && (s.info % 16 == STT_FUNC || s.info % 16 == STT_NOTYPE)
  }

  function FunctionLikeNames(syms: seq<Sym>): seq<GoString> {
    if syms == [] then []
    else
      var before := FunctionLikeNames(syms[..|syms| - 1]);
      if IsFunctionLike(syms[|syms| - 1]) then before + [syms[|syms| - 1].name] else before
  }

  lemma {:induction false} FunctionLikeExact(syms: seq<Sym>, n: GoString)
    ensures n in FunctionLikeNames(syms) <==>
            exists i :: 0 <= i < |syms| && IsFunctionLike(syms[i]) && syms[i].name == n
  {
    if syms != [] {
      var before, last := syms[..|syms| - 1], syms[|syms| - 1];
      FunctionLikeExact(before, n);
      assert syms == before + [last];
    }
  }

  function SymsOf(syms: Option<seq<Sym>>): seq<Sym> {
    if syms.Some? then syms.value else []
  }

  /** Every name that the fortified scan looks at. */
  function Referenced(f: ElfFile, raw: seq<byte>): seq<GoString>
    requires Scannable(f, raw)
  {
    FunctionLikeNames(SymsOf(f.sections.dynSymbols)) + FunctionLikeNames(SymsOf(f.sections.symbols)) +
    SymbolNamesPH(f, raw)
  }

  /** The distinct version-stripped fortified names, in order of first appearance. */
  function Collected(names: seq<string>): seq<string> {
    if names == [] then []
    else
      var before := Collected(names[..|names| - 1]);
      var name := BaseSymbolName(names[|names| - 1]);
      if name in before || !IsFortifyChkName(name) then before else before + [name]
  }

  function FortifiedNames(f: ElfFile, raw: seq<byte>): seq<string>
    requires Scannable(f, raw)
  {
    SortStrings(Collected(Referenced(f, raw)))
  }

  ghost predicate SeenIs(seen: map<string, bool>, out: seq<string>) {
    forall n: string :: n in seen <==> n in out
  }

  lemma CollectedSnoc(names: seq<string>, n: string)
    ensures Collected(names + [n]) ==
            var name := BaseSymbolName(n);
            if name in Collected(names) || !IsFortifyChkName(name) then Collected(names) else Collected(names) + [name]
  {
    assert (names + [n])[..|names|] == names;
  }

  lemma EmptyNotFortified()
    ensures !IsFortifyChkName("")
  {
  }

  /** Adds the names of one source that match the pattern and were not seen before. */
  method AddFortified(names: seq<string>, out0: seq<string>, seen0: map<string, bool>, ghost done: seq<string>)
    returns (out: seq<string>, seen: map<string, bool>)
    requires out0 == Collected(done) && SeenIs(seen0, out0)
    ensures out == Collected(done + names) && SeenIs(seen, out)
  {
    EmptyNotFortified();
    hide Collected, IsFortifyChkName, BaseSymbolName;
    out, seen := out0, seen0;
    assert done + names[..0] == done;
    for i := 0 to |names|
      invariant out == Collected(done + names[..i]) && SeenIs(seen, out)
    {
      CollectedSnoc(done + names[..i], names[i]);
      assert done + names[..i + 1] == (done + names[..i]) + [names[i]];
      var name := BaseSymbolName(names[i]);
      if name == "" || name in seen || !IsFortifyChkName(name) {
        continue;
      }
      seen := seen[name := true];
      out := out + [name];
    }
    assert names[..|names|] == names;
  }

  method TypedNames(syms: seq<Sym>) returns (names: seq<GoString>)
    ensures names == FunctionLikeNames(syms)
  {
    names := [];
    for i := 0 to |syms|
      invariant names == FunctionLikeNames(syms[..i])
    {
      assert syms[..i + 1][..i] == syms[..i];
      if syms[i].name == "" {
        continue;
      }
      if syms[i].info % 16 == STT_FUNC || syms[i].info % 16 == STT_NOTYPE {
        names := names + [syms[i].name];
      }
    }
    assert syms[..|syms|] == syms;
  }

  method FortifiedChkNames(f: ElfFile, raw: seq<byte>) returns (out: seq<string>)
    requires Scannable(f, raw)
    ensures out == FortifiedNames(f, raw)
  {
    var seen: map<string, bool> := map[];
    out := [];
    var dyn := TypedNames(SymsOf(f.sections.dynSymbols));
    out, seen := AddFortified(dyn, out, seen, []);
    assert [] + dyn == dyn;
    var syms := TypedNames(SymsOf(f.sections.symbols));
    out, seen := AddFortified(syms, out, seen, dyn);
    var phdr := PhdrSymbolNames(f, raw);
    out, seen := AddFortified(phdr, out, seen, dyn + syms);
    out := SortStrings(out);
  }

  /** The set of fortified names among `names`, without version suffixes. */
  function FortifiedSet(names: set<string>): set<string> {
    set n | n in names && IsFortifyChkName(BaseSymbolName(n)) :: BaseSymbolName(n)
  }

  function Members(s: seq<string>): set<string> {
    set x | x in s
  }

  lemma NoMembers()
    ensures Members([]) == {}
  {
  }

  lemma MembersAre(s: seq<string>, t: set<string>)
    requires forall n :: n in s <==> n in t
    ensures Members(s) == t
  {
  }

  lemma {:induction false} CollectedExact(names: seq<string>)
    ensures Distinct(Collected(names))
    ensures forall n :: n in Collected(names) <==> n in FortifiedSet(Members(names))
  {
    if names != [] {
      var before, last := names[..|names| - 1], names[|names| - 1];
      CollectedExact(before);
      hide IsFortifyChkName, BaseSymbolName;
      assert Members(names) == Members(before) + {last};
      var name := BaseSymbolName(last);
      forall n
        ensures n in Collected(names) <==> n in FortifiedSet(Members(names))
      {
        assert n in FortifiedSet(Members(names)) <==>
          n in FortifiedSet(Members(before)) || (n == name && IsFortifyChkName(name));
      }
    }
  }

  lemma {:induction false} DistinctCount(s: seq<string>)
    requires Distinct(s)
    ensures |Members(s)| == |s|
  {
    if s != [] {
      var before := s[..|s| - 1];
      DistinctCount(before);
      assert Members(s) == Members(before) + {s[|s| - 1]};
      assert s[|s| - 1] !in Members(before);
    }
  }

  lemma SameMembersDistinct(a: seq<string>, b: seq<string>)
    requires Distinct(a) && |a| == |b| && Members(a) == Members(b)
    ensures Distinct(b)
  {
    DistinctCount(a);
    if !Distinct(b) {
      FewerMembers(b);
    }
  }

  lemma {:induction false} FewerMembers(s: seq<string>)
    ensures |Members(s)| <= |s|
    ensures !Distinct(s) ==> |Members(s)| < |s|
  {
    if s != [] {
      var before, last := s[..|s| - 1], s[|s| - 1];
      FewerMembers(before);
      assert Members(s) == Members(before) + {last};
      if Distinct(before) && !Distinct(s) {
        assert last in before;
        assert Members(s) == Members(before);
      }
    }
  }

  /** The fortified list is ascending, free of repetitions, and holds exactly the
      version-stripped matching names of all three sources. */
  lemma FortifiedExact(f: ElfFile, raw: seq<byte>)
    requires Scannable(f, raw)
    ensures var out := FortifiedNames(f, raw);
            && Sorted(out) && Distinct(out)
            && Members(out) == FortifiedSet(Members(Referenced(f, raw)))
            && |out| == |FortifiedSet(Members(Referenced(f, raw)))|
  {
    hide Referenced, FortifiedSet, SortStrings, Collected, Sorted;
    var names := Collected(Referenced(f, raw));
    CollectedExact(Referenced(f, raw));
    SortExact(names);
    PermutationFacts(SortStrings(names), names);
    MembersAre(names, FortifiedSet(Members(Referenced(f, raw))));
    MembersAre(SortStrings(names), Members(names));
    SameMembersDistinct(names, SortStrings(names));
    DistinctCount(SortStrings(names));
  }

  lemma {:induction false} SortedUnique(a: seq<string>, b: seq<string>)
    requires Sorted(a) && Distinct(a) && Sorted(b) && Distinct(b) && Members(a) == Members(b)
    ensures a == b
  {
    assert a != [] ==> a[0] in Members(b);
    assert b != [] ==> b[0] in Members(a);
    if a != [] && b != [] {
      SameFirst(a, b);
      TailMembers(a);
      TailMembers(b);
      assert Members(a[1..]) == Members(b[1..]);
      SortedUnique(a[1..], b[1..]);
      assert a == [a[0]] + a[1..] && b == [b[0]] + b[1..];
    }
  }

  lemma SameFirst(a: seq<string>, b: seq<string>)
    requires a != [] && b != [] && Sorted(a) && Sorted(b) && Members(a) == Members(b)
    ensures a[0] == b[0]
  {
    assert a[0] in Members(b) && b[0] in Members(a);
    var i :| 0 <= i < |b| && b[i] == a[0];
    var j :| 0 <= j < |a| && a[j] == b[0];
    if i > 0 && j > 0 {
      StrLeAntisymmetric(a[0], b[0]);
    }
  }

  lemma TailMembers(s: seq<string>)
    requires s != [] && Sorted(s) && Distinct(s)
    ensures Sorted(s[1..]) && Distinct(s[1..]) && Members(s[1..]) == Members(s) - {s[0]}
  {
    assert forall x :: x in s <==> x == s[0] || x in s[1..];
  }

  /** The list depends only on which names are referenced, not on their order or repetition. */
  lemma FortifiedOrderFree(f: ElfFile, raw: seq<byte>, f': ElfFile, raw': seq<byte>)
    requires Scannable(f, raw) && Scannable(f', raw')
    requires Members(Referenced(f, raw)) == Members(Referenced(f', raw'))
    ensures FortifiedNames(f, raw) == FortifiedNames(f', raw')
  {
    hide Referenced, FortifiedNames, FortifiedSet, Sorted;
    FortifiedExact(f, raw);
    FortifiedExact(f', raw');
    SortedUnique(FortifiedNames(f, raw), FortifiedNames(f', raw'));
  }

  // ---- Coverage ----------------------------------------------------------

  datatype FortifyResult = FortifyResult(summary: Result, fortified: Result, fortifiable: Result)

  function Itoa(n: nat): string {
    if n < 10 then [DIGITS[n]] else Itoa(n / 10) + [DIGITS[n % 10]]
  }

  const DIGITS := "0123456789"

  /** The non-empty names of the dynamic symbols. */
  function ImportedNames(f: ElfFile): seq<GoString> {
    NonEmpty(NamesOfSyms(f.sections.dynSymbols))
  }

  function NonEmpty(names: seq<GoString>): seq<GoString> {
    if names == [] then []
    else if names[0] == "" then NonEmpty(names[1..])
    else [names[0]] + NonEmpty(names[1..])
  }

  lemma {:induction false} NonEmptyExact(names: seq<GoString>, n: GoString)
    ensures n in NonEmpty(names) <==> n in names && n != ""
  {
    if names != [] {
      NonEmptyExact(names[1..], n);
    }
  }

  function BaseNames(names: set<string>): set<string> {
    set n | n in names :: BaseSymbolName(n)
  }

  /** The functions the binary references, without version suffixes. */
  function BinaryFuncs(f: ElfFile, raw: seq<byte>): set<string>
    requires Scannable(f, raw)
  {
    BaseNames(Members(ImportedNames(f)) + Members(SymbolNamesPH(f, raw)))
  }

  function BasesOf(universe: seq<string>): set<string> {
    set chk | chk in universe :: FortifyBaseName(chk)
  }

  function CheckableBases(): set<string> {
    BasesOf(SUPPORTED_CHK)
  }

  /** Checkable functions called without their check. */
  function Unprotected(f: ElfFile, raw: seq<byte>): set<string>
    requires Scannable(f, raw)
  {
    CheckableBases() * BinaryFuncs(f, raw)
  }

  function FortifyVerdict(f: ElfFile, raw: seq<byte>, none: bool): FortifyResult
    requires Scannable(f, raw)
  {
    var fortified := |FortifiedNames(f, raw)|;
    if none then
      if f.sections.symbols.None? then FortifyResult(NaResult("N/A"), NaResult("N/A"), NaResult("N/A"))
      else if fortified > 0 then
        FortifyResult(OkResult("Fortified calls found"), InfoResult(Itoa(fortified)), NaResult("N/A"))
      else FortifyResult(InfoResult("No fortified calls"), InfoResult("0"), NaResult("N/A"))
    else
      var fortifiable := fortified + |Unprotected(f, raw)|;
      FortifyResult(
        if fortified > 0 then OkResult("Yes")
        else if fortifiable > 0 then WarnResult("No")
        else InfoResult("No fortifiable calls"),
        InfoResult(Itoa(fortified)), InfoResult(Itoa(fortifiable)))
  }

  /** Marks the base names of `names` as referenced. */
  method AddBases(names: seq<string>, funcs0: map<string, bool>) returns (funcs: map<string, bool>)
    ensures funcs.Keys == funcs0.Keys + BaseNames(Members(names))
  {
    funcs := funcs0;
    for i := 0 to |names|
      invariant funcs.Keys == funcs0.Keys + BaseNames(Members(names[..i]))
    {
      BaseNamesSnoc(names[..i], names[i]);
      assert names[..i + 1] == names[..i] + [names[i]];
      funcs := funcs[BaseSymbolName(names[i]) := true];
    }
    assert names[..|names|] == names;
  }

  lemma BaseNamesSnoc(names: seq<string>, n: string)
    ensures BaseNames(Members(names + [n])) == BaseNames(Members(names)) + {BaseSymbolName(n)}
  {
    hide BaseSymbolName;
    assert Members(names + [n]) == Members(names) + {n};
    BaseNamesUnion(Members(names), {n});
    assert BaseNames({n}) == {BaseSymbolName(n)};
  }

  lemma BaseNamesUnion(a: set<string>, b: set<string>)
    ensures BaseNames(a + b) == BaseNames(a) + BaseNames(b)
  {
    hide BaseSymbolName;
  }

  /** The map of base names, built from the universe one name at a time. */
  method BaseMap(universe: seq<string>) returns (chkBase: map<string, bool>)
    ensures chkBase.Keys == BasesOf(universe)
  {
    chkBase := map[];
    for i := 0 to |universe|
      invariant chkBase.Keys == BasesOf(universe[..i])
    {
      BasesOfSnoc(universe[..i], universe[i]);
      assert universe[..i + 1] == universe[..i] + [universe[i]];
      chkBase := chkBase[FortifyBaseName(universe[i]) := true];
    }
    assert universe[..|universe|] == universe;
  }

  lemma BasesOfSnoc(universe: seq<string>, chk: string)
    ensures BasesOf(universe + [chk]) == BasesOf(universe) + {FortifyBaseName(chk)}
  {
    hide FortifyBaseName;
    assert forall c :: c in universe + [chk] <==> c in universe || c == chk;
  }

  /** Counts the bases that the binary references; the map is walked in any order. */
  method CountUnprotected(chkBase: map<string, bool>, binaryFuncs: map<string, bool>) returns (count: nat)
    ensures count == |chkBase.Keys * binaryFuncs.Keys|
  {
    count := CountIn(chkBase.Keys, binaryFuncs.Keys);
  }

  method CountIn(bases: set<string>, funcs: set<string>) returns (count: nat)
    ensures count == |bases * funcs|
  {
    count := 0;
    var todo := bases;
    while todo != {}
      invariant todo <= bases
      invariant count == |(bases - todo) * funcs|
      decreases |todo|
    {
      var base :| base in todo;
      CountStep(bases - todo, base, funcs);
      assert bases - todo + {base} == bases - (todo - {base});
      if base in funcs {
        count := count + 1;
      }
      todo := todo - {base};
    }
    assert bases - todo == bases;
  }

  lemma CountStep(seen: set<string>, base: string, funcs: set<string>)
    requires base !in seen
    ensures |(seen + {base}) * funcs| == |seen * funcs| + if base in funcs then 1 else 0
  {
    if base in funcs {
      assert (seen + {base}) * funcs == seen * funcs + {base};
    } else {
      assert (seen + {base}) * funcs == seen * funcs;
    }
  }

  method FortifyCheck(f: ElfFile, raw: seq<byte>, none: bool) returns (res: FortifyResult)
    requires Scannable(f, raw)
    ensures res == FortifyVerdict(f, raw, none)
  {
    hide FortifiedNames, Unprotected, Itoa, Scannable;
    if none {
      if f.sections.symbols.None? {
        return FortifyResult(NaResult("N/A"), NaResult("N/A"), NaResult("N/A"));
      }
      var names := FortifiedChkNames(f, raw);
      if |names| > 0 {
        return FortifyResult(OkResult("Fortified calls found"), InfoResult(Itoa(|names|)), NaResult("N/A"));
      }
      return FortifyResult(InfoResult("No fortified calls"), InfoResult("0"), NaResult("N/A"));
    }
    var unprotectedCount := Fortifiable(f, raw);
    var fortifiedList := FortifiedChkNames(f, raw);
    var fortified := |fortifiedList|;
    var fortifiable := fortified + unprotectedCount;
    var summary;
    if fortified > 0 {
      summary := OkResult("Yes");
    } else if fortifiable > 0 {
      summary := WarnResult("No");
    } else {
      summary := InfoResult("No fortifiable calls");
    }
    res := FortifyResult(summary, InfoResult(Itoa(fortified)), InfoResult(Itoa(fortifiable)));
  }

  method Fortifiable(f: ElfFile, raw: seq<byte>) returns (unprotected: nat)
    requires Scannable(f, raw)
    ensures unprotected == |Unprotected(f, raw)|
  {
    hide BasesOf, BaseNames, ImportedNames, SymbolNamesPH, Members;
    var binaryFuncs := AddBases(ImportedNames(f), map[]);
    var phdr := PhdrSymbolNames(f, raw);
    binaryFuncs := AddBases(phdr, binaryFuncs);
    BaseNamesUnion(Members(ImportedNames(f)), Members(phdr));
    var chkBase := BaseMap(SUPPORTED_CHK);
    unprotected := CountUnprotected(chkBase, binaryFuncs);
  }

  // ---- What the counts mean ----------------------------------------------

  /** No function is counted twice: the fortified names and the unprotected base names are
      disjoint, and the fortifiable count is the size of their union. */
  lemma FortifyNeverDoubleCounts(f: ElfFile, raw: seq<byte>)
    requires Scannable(f, raw)
    ensures var fortified := FortifiedSet(Members(Referenced(f, raw)));
            && fortified !! Unprotected(f, raw)
            && |FortifiedNames(f, raw)| + |Unprotected(f, raw)| == |fortified + Unprotected(f, raw)|
  {
    FortifiedExact(f, raw);
    hide Referenced, BinaryFuncs, FortifyBaseName, IsFortifyChkName, BaseSymbolName, FortifiedNames;
    var fortified := FortifiedSet(Members(Referenced(f, raw)));
    forall n | n in fortified
      ensures n !in Unprotected(f, raw)
    {
      assert IsFortifyChkName(n);
      if n in CheckableBases() {
        var chk :| chk in SUPPORTED_CHK && FortifyBaseName(chk) == n;
        UniverseBases(chk, chk);
      }
    }
  }

  lemma SubsetCount(a: set<string>, b: set<string>)
    requires a <= b
    ensures |a| <= |b|
  {
    assert b == a + (b - a);
  }

  /** Both counts depend only on which names are referenced, not on their order or repetition,
      and grow with them. */
  lemma FortifyMonotone(f: ElfFile, raw: seq<byte>, f': ElfFile, raw': seq<byte>)
    requires Scannable(f, raw) && Scannable(f', raw')
    requires Members(Referenced(f, raw)) <= Members(Referenced(f', raw'))
    requires Members(ImportedNames(f)) + Members(SymbolNamesPH(f, raw)) <=
             Members(ImportedNames(f')) + Members(SymbolNamesPH(f', raw'))
    ensures |FortifiedNames(f, raw)| <= |FortifiedNames(f', raw')|
    ensures |Unprotected(f, raw)| <= |Unprotected(f', raw')|
  {
    FortifiedExact(f, raw);
    FortifiedExact(f', raw');
    hide Referenced, IsFortifyChkName, BaseSymbolName, FortifiedNames, ImportedNames, SymbolNamesPH, CheckableBases,
      Members;
    SubsetCount(FortifiedSet(Members(Referenced(f, raw))), FortifiedSet(Members(Referenced(f', raw'))));
    SubsetCount(Unprotected(f, raw), Unprotected(f', raw'));
  }
}
