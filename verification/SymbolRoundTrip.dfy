/** Exactly when the program-header scan of a generated image returns the layout's function
    names, and a simple condition under which it does. */
module SymbolRoundTrip {
  import opened Bytes
  import opened Elf
  import opened Dyn
  import opened DynProperties
  import opened ElfGen
  import opened ImageReading
  import opened SymbolReading

  // ---- Stray names -------------------------------------------------------

  /** The 24 bytes at `at`, read as a symbol, name nothing: not a function, or its name offset
      lies outside the table or at a zero byte. */
  predicate Harmless(b: seq<byte>, at: nat, str: seq<byte>)
    requires at + SYM_SIZE <= |b|
  {
    var nameOff := LeValue(b[at..at + 4]);
    b[at + 4] % 16 != STT_FUNC || nameOff >= |str| || str[nameOff] == 0
  }

  ghost predicate AllHarmless(b: seq<byte>, str: seq<byte>) {
    forall j: nat :: Offset(SYM_SIZE, j) + SYM_SIZE <= |b| ==> Harmless(b, Offset(SYM_SIZE, j), str)
  }

  /** No 24-byte window that the scan reaches beyond the real symbols names anything. */
  ghost predicate StrayFree(l: Layout) {
    AllHarmless(Beyond(l), StrTab(l))
  }

  lemma HarmlessExact(b: seq<byte>, str: seq<byte>)
    requires |b| >= SYM_SIZE
    ensures RecordName(DecodeSym(b[..SYM_SIZE], Elf64, LittleEndian), str) == [] <==> Harmless(b, 0, str)
  {
    var rec := DecodeSym(b[..SYM_SIZE], Elf64, LittleEndian);
    assert b[..SYM_SIZE][0..4] == b[0..4];
    assert rec.nameOff == LeValue(b[0..4]);
    if rec.nameOff < |str| {
      var z := IndexOfZero(str[rec.nameOff..]);
      assert z == 0 <==> str[rec.nameOff] == 0;
      assert |str[rec.nameOff..rec.nameOff + z]| == z;
    }
  }

  lemma HarmlessShift(b: seq<byte>, at: nat, str: seq<byte>)
    requires SYM_SIZE <= at && at + SYM_SIZE <= |b|
    ensures Harmless(b, at, str) <==> Harmless(b[SYM_SIZE..], at - SYM_SIZE, str)
  {
    assert b[SYM_SIZE..][at - SYM_SIZE..at - SYM_SIZE + 4] == b[at..at + 4];
  }

  lemma AllHarmlessStep(b: seq<byte>, str: seq<byte>)
    requires |b| >= SYM_SIZE
    ensures AllHarmless(b, str) <==> Harmless(b, 0, str) && AllHarmless(b[SYM_SIZE..], str)
  {
    hide Harmless;
    var rest := b[SYM_SIZE..];
    if AllHarmless(b, str) {
      assert Harmless(b, Offset(SYM_SIZE, 0), str);
      forall j: nat | Offset(SYM_SIZE, j) + SYM_SIZE <= |rest|
        ensures Harmless(rest, Offset(SYM_SIZE, j), str)
      {
        NextOffset(j);
        HarmlessShift(b, Offset(SYM_SIZE, j + 1), str);
      }
    }
    if Harmless(b, 0, str) && AllHarmless(rest, str) {
      forall j: nat | Offset(SYM_SIZE, j) + SYM_SIZE <= |b|
        ensures Harmless(b, Offset(SYM_SIZE, j), str)
      {
        if j > 0 {
          NextOffset(j - 1);
          HarmlessShift(b, Offset(SYM_SIZE, j), str);
        }
      }
    }
  }

  lemma NextOffset(j: nat)
    ensures Offset(SYM_SIZE, j + 1) == Offset(SYM_SIZE, j) + SYM_SIZE
  {
  }

  /** Misread records yield no name exactly when every window is harmless. */
  lemma {:induction false} StraysExact(b: seq<byte>, str: seq<byte>)
    ensures NamesOf(Decoded(b), str) == [] <==> AllHarmless(b, str)
    decreases |b|
  {
    if |b| >= SYM_SIZE {
      var first := DecodeSym(b[..SYM_SIZE], Elf64, LittleEndian);
      var rest := Decoded(b[SYM_SIZE..]);
      StraysExact(b[SYM_SIZE..], str);
      NamesOfConcat([first], rest, str);
      assert NamesOf([first], str) == RecordName(first, str) by {
        assert [first][..0] == [];
      }
      HarmlessExact(b, str);
      AllHarmlessStep(b, str);
    }
  }

  // ---- The round trip ----------------------------------------------------

  /** What a caller must ensure: a table the reader accepts, names that are C strings, no more
      symbols than the scan limit allows, and no string-table window that reads as a named function. */
  ghost predicate SymbolsSurvive(l: Layout) {
    if TableFound(l) then AllCStrings(l.dynSyms) && |l.dynSyms| <= MAX_RECORDS && StrayFree(l)
    else l.dynSyms == []
  }

  lemma StraysAreCStrings(l: Layout)
    ensures AllCStrings(Strays(l))
  {
    NamesOfBounded(Decoded(Beyond(l)), StrTab(l));
    assert forall i :: 0 <= i < |Strays(l)| ==> Strays(l)[i] in Strays(l);
  }

  lemma StraysEmpty(l: Layout)
    ensures Strays(l) == [] <==> StrayFree(l)
  {
    StraysExact(Beyond(l), StrTab(l));
  }

  lemma ManyNamesNoStrays(l: Layout)
    requires |l.dynSyms| > MAX_RECORDS
    ensures Strays(l) == []
  {
    assert |SymNames(l)| >= |l.dynSyms|;
    assert Beyond(l) == [];
  }

  lemma AppendedNames(d: seq<GoString>, strays: seq<GoString>, strayFree: bool)
    requires AllCStrings(strays) && (strays == [] <==> strayFree)
    requires |d| > MAX_RECORDS ==> strays == []
    ensures Visible(UnderLimit(d)) + strays == d <==> AllCStrings(d) && |d| <= MAX_RECORDS && strayFree
  {
    var seen := Visible(UnderLimit(d));
    VisibleAreCStrings(UnderLimit(d));
    VisibleWhole(d);
    assert AllCStrings(seen + strays);
    if |d| <= MAX_RECORDS {
      assert UnderLimit(d) == d;
      if seen + strays == d {
        assert AllCStrings(d);
        assert |seen| == |d|;
      }
    }
  }

  /** The function names come back, in order and without additions, if and only if the layout
      meets SymbolsSurvive. */
  lemma SymbolRoundTripExact(l: Layout)
    requires Buildable(l)
    ensures Scannable(Opened(l), Image(l))
    ensures SymbolNamesPH(Opened(l), Image(l)) == l.dynSyms <==> SymbolsSurvive(l)
  {
    hide Image, Opened, Scannable, SymbolNamesPH, Visible, Strays, StrayFree, TableFound, AllCStrings, Total;
    SymbolNamesExact(l);
    StraysAreCStrings(l);
    StraysEmpty(l);
    if |l.dynSyms| > MAX_RECORDS {
      ManyNamesNoStrays(l);
    }
    AppendedNames(l.dynSyms, Strays(l), StrayFree(l));
  }

  // ---- A simple sufficient condition -------------------------------------

  predicate NoDoubleZero(b: seq<byte>) {
    forall i :: 0 <= i < |b| - 1 ==> b[i] != 0 || b[i + 1] != 0
  }

  /** Names and joined paths are NUL-free, names are non-empty, and the table has at most 65536 bytes. */
  predicate PlainLayout(l: Layout) {
    && AllCStrings(l.dynSyms) && AllCStrings(l.objectSyms)
    && '\0' !in JoinedPath(l.rpath) && '\0' !in JoinedPath(l.runpath)
    && HasSyms(l) && |StrTab(l)| <= TWO_TO_16
  }

  lemma {:induction false} PackedNoDoubleZero(names: seq<GoString>)
    requires AllCStrings(names)
    ensures NoDoubleZero(Packed(names)) && Packed(names)[|Packed(names)| - 1] == 0
    ensures |Packed(names)| >= 1 + 2 * |names|
  {
    if names != [] {
      var before := names[..|names| - 1];
      var n := names[|names| - 1];
      PackedNoDoubleZero(before);
      assert forall i :: 0 <= i < |n| ==> n[i] in n;
      assert forall i :: 0 <= i < |n| ==> BytesOf(n)[i] != 0;
      NameAppended(Packed(before), BytesOf(n));
    }
  }

  lemma NameAppended(b: seq<byte>, n: seq<byte>)
    requires |b| > 0 && NoDoubleZero(b) && |n| > 0 && forall i :: 0 <= i < |n| ==> n[i] != 0
    ensures NoDoubleZero(b + n + [0])
  {
    var s := b + n + [0];
    forall i | 0 <= i < |s| - 1
      ensures s[i] != 0 || s[i + 1] != 0
    {
      if i < |b| - 1 {
        assert s[i] == b[i] && s[i + 1] == b[i + 1];
      } else if i == |b| - 1 {
        assert s[i + 1] == n[0];
      } else {
        assert s[i] == n[i - |b|];
      }
    }
  }

  lemma PlainNames(l: Layout)
    requires PlainLayout(l)
    ensures AllCStrings(Names(l))
  {
    assert forall i :: 0 <= i < |SymNames(l)| ==>
      SymNames(l)[i] == if i < |l.dynSyms| then l.dynSyms[i] else l.objectSyms[i - |l.dynSyms|];
    assert AllCStrings(SymNames(l));
    assert AllCStrings([LIBC]);
    var a, b := SymNames(l), OneIf(HasSyms(l), LIBC);
    var c := OneIf(JoinedPath(l.rpath) != "", JoinedPath(l.rpath));
    var d := OneIf(JoinedPath(l.runpath) != "", JoinedPath(l.runpath));
    FourCStrings(a, b, c, d);
  }

  lemma FourCStrings(a: seq<GoString>, b: seq<GoString>, c: seq<GoString>, d: seq<GoString>)
    requires AllCStrings(a) && AllCStrings(b) && AllCStrings(c) && AllCStrings(d)
    ensures AllCStrings(a + b + c + d)
  {
  }

  lemma PlainTable(l: Layout)
    requires PlainLayout(l)
    ensures NoDoubleZero(StrTab(l)) && |SymNames(l)| <= 32768
  {
    PlainNames(l);
    PackedNoDoubleZero(Names(l));
    var b := Packed(Names(l));
    if l.pacIBSP {
      PacAppended(b);
    } else {
      assert b + [] == b;
    }
    SlotsFewer(l);
  }

  lemma SlotsFewer(l: Layout)
    ensures |SymNames(l)| <= |Names(l)| && |Packed(Names(l))| <= |StrTab(l)|
  {
  }

  lemma PacAppended(b: seq<byte>)
    requires |b| > 0 && NoDoubleZero(b)
    ensures NoDoubleZero(b + PACIBSP)
  {
    var s := b + PACIBSP;
    forall i | 0 <= i < |s| - 1
      ensures s[i] != 0 || s[i + 1] != 0
    {
      if i < |b| - 1 {
        assert s[i] == b[i] && s[i + 1] == b[i + 1];
      } else {
        assert s[i + 1] == PACIBSP[i + 1 - |b|];
      }
    }
  }

  /** In a short table without adjacent zeros, every window misread as a symbol has a name
      offset of at least 65536, which lies outside. */
  lemma ShortTableHarmless(str: seq<byte>, b: seq<byte>)
    requires NoDoubleZero(str) && |str| <= TWO_TO_16 && b <= Pad8(str)
    ensures AllHarmless(b, str)
  {
    forall j: nat | Offset(SYM_SIZE, j) + SYM_SIZE <= |b|
      ensures Harmless(b, Offset(SYM_SIZE, j), str)
    {
      WindowHarmless(str, b, Offset(SYM_SIZE, j));
    }
  }

  lemma WindowHarmless(str: seq<byte>, b: seq<byte>, at: nat)
    requires NoDoubleZero(str) && |str| <= TWO_TO_16 && b <= Pad8(str)
    requires at + SYM_SIZE <= |b|
    ensures Harmless(b, at, str)
  {
    assert at + 3 < |str|;
    var w := b[at..at + 4];
    assert w[2] == str[at + 2] && w[3] == str[at + 3];
    assert str[at + 2] != 0 || str[at + 2 + 1] != 0;
    LeValueUpperHalf(w);
  }

  lemma BeyondIsPadding(l: Layout)
    ensures Beyond(l) <= Pad8(StrTab(l))
  {
  }

  /** Plain layouts meet the exact condition. */
  lemma PlainSurvives(l: Layout)
    requires PlainLayout(l)
    ensures SymbolsSurvive(l)
  {
    PlainTable(l);
    BeyondIsPadding(l);
    ShortTableHarmless(StrTab(l), Beyond(l));
    assert |l.dynSyms| <= |SymNames(l)|;
  }

  /** A plain layout's function names come back exactly. */
  lemma SymbolRoundTrip(l: Layout)
    requires Buildable(l) && PlainLayout(l)
    ensures Scannable(Opened(l), Image(l))
    ensures SymbolNamesPH(Opened(l), Image(l)) == l.dynSyms
  {
    SymbolRoundTripExact(l);
    PlainSurvives(l);
  }

  // ---- A layout whose symbols do not survive -----------------------------

  /** Names without NUL, but one of them empty: the string table starts 00 01 00 00 '2', which
      the scan reads as a function symbol whose name is at offset 256. */
  function StrayLayout(): Layout {
    Layout("stray", 0, false, false, false, false, false, false, false, false, false, false, false, false, false,
           [], [], [[1 as char]], ["", Twos()])
  }

  function Twos(): (s: GoString)
    ensures |s| == 300 && forall i :: 0 <= i < 300 ==> s[i] == '2'
  {
    seq(300, _ => '2')
  }

  lemma StrayNames()
    ensures var l := StrayLayout();
            SymNames(l) == [[1 as char], "", Twos()] && Names(l) == [[1 as char], "", Twos(), LIBC]
            && StrTab(l) == [0, 1, 0, 0] + BytesOf(Twos()) + [0] + BytesOf(LIBC) + [0]
  {
    var l := StrayLayout();
    assert SymNames(l) == [[1 as char], "", Twos()];
    assert JoinedPath([]) == "";
    StrayPacked([1 as char], "", Twos(), LIBC);
    hide Packed, Twos;
    assert Names(l) == [[1 as char], "", Twos(), LIBC];
  }

  lemma StrayPacked(a: GoString, b: GoString, c: GoString, d: GoString)
    requires a == [1 as char] && b == ""
    ensures Packed([a, b, c, d]) + [] == [0, 1, 0, 0] + BytesOf(c) + [0] + BytesOf(d) + [0]
  {
    PackedAppend([], a);
    PackedAppend([a], b);
    PackedAppend([a, b], c);
    PackedAppend([a, b, c], d);
    assert Packed([]) == [0];
    hide Packed;
    assert [] + [a] == [a] && [a] + [b] == [a, b] && [a, b] + [c] == [a, b, c] && [a, b, c] + [d] == [a, b, c, d];
    assert [0] + BytesOf(a) + [0] + BytesOf(b) + [0] == [0, 1, 0, 0];
  }

  lemma StrayWindow(str: seq<byte>, b: seq<byte>)
    requires |str| > 256 && str <= b
    requires str[0] == 0 && str[1] == 1 && str[2] == 0 && str[3] == 0 && str[4] == 0x32 && str[256] == 0x32
    ensures !Harmless(b, 0, str)
  {
    var w := b[0..4];
    assert w == [0, 1, 0, 0];
    assert w[1..] == [1, 0, 0] && w[1..][1..] == [0, 0] && w[1..][1..][1..] == [0];
    assert LeValue([0]) == 0;
    assert LeValue([0, 0]) == 0;
    assert LeValue([1, 0, 0]) == 1;
    assert LeValue(w) == 256;
  }

  lemma StrayBytes(str: seq<byte>)
    requires str == [0, 1, 0, 0] + BytesOf(Twos()) + [0] + BytesOf(LIBC) + [0]
    ensures |str| == 315
    ensures str[0] == 0 && str[1] == 1 && str[2] == 0 && str[3] == 0 && str[4] == 0x32 && str[256] == 0x32
  {
    var twos := BytesOf(Twos());
    assert str[4] == twos[0] && str[256] == twos[252];
  }

  /** Without the condition the round trip fails: this layout gets an extra name. */
  lemma StrayLayoutFails()
    ensures var l := StrayLayout();
            Buildable(l) && Scannable(Opened(l), Image(l)) && SymbolNamesPH(Opened(l), Image(l)) != l.dynSyms
  {
    hide Image, Opened, Scannable, SymbolNamesPH, StrTab, SymNames, Names, Beyond, TableFound, Harmless, Pad8,
      StrayLayout;
    var l := StrayLayout();
    StrayNames();
    StrayBytes(StrTab(l));
    StraySizes(l);
    assert StrTab(l) <= Beyond(l);
    StrayWindow(StrTab(l), Beyond(l));
    assert Offset(SYM_SIZE, 0) == 0;
    assert !StrayFree(l);
    SymbolRoundTripExact(l);
  }

  lemma StraySizes(l: Layout)
    requires l == StrayLayout() && |SymNames(l)| == 3 && |StrTab(l)| == 315
    ensures TableFound(l) && Beyond(l) == Pad8(StrTab(l)) && StrTab(l) <= Beyond(l) && Buildable(l)
  {
    hide StrTab, Names;
    assert Align8(315) == 320;
    SmallLayout(l);
  }
}
