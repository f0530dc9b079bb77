/** What each detector answers, in terms of the header numbers, entries, names and bytes of the file. */
module DetectorLaws {
  import opened Bytes
  import opened Strings
  import opened Results
  import opened Elf
  import opened Dyn
  import opened DynProperties
  import opened Detectors

  // ---- Entries, segments and bytes ---------------------------------------

  predicate HasEntry(dyns: seq<DynEntry>, tag: nat) {
    exists i :: 0 <= i < |dyns| && dyns[i].tag == tag
  }

  predicate IsFirst(dyns: seq<DynEntry>, tag: nat, i: nat)
    requires i < |dyns|
  {
    dyns[i].tag == tag && forall k :: 0 <= k < i ==> dyns[k].tag != tag
  }

  /** The first entry with the tag, if any, has the bit set: it is in what remains of the value once all higher bits
      are taken away. */
  predicate FirstHolds(dyns: seq<DynEntry>, tag: nat, bit: nat)
    requires bit > 0
  {
    exists i: nat :: i < |dyns| && IsFirst(dyns, tag, i) && dyns[i].val % (2 * bit) >= bit
  }

  predicate HasHeader(progs: seq<Prog>, typ: nat) {
    exists i :: 0 <= i < |progs| && progs[i].typ == typ
  }

  /** The bytes stand somewhere in the data. */
  ghost predicate Occurs(data: seq<byte>, code: seq<byte>) {
    exists a: seq<byte>, b: seq<byte> :: data == a + code + b
  }

  lemma FirstEntry(dyns: seq<DynEntry>, tag: u64)
    ensures DynTag(dyns, tag).Some? <==> HasEntry(dyns, tag)
    ensures HasEntry(dyns, tag) ==>
              exists i: nat :: i < |dyns| && IsFirst(dyns, tag, i) && DynTag(dyns, tag) == Some(dyns[i].val)
  {
    if HasEntry(dyns, tag) {
      var i := FirstPosition(dyns, tag);
      DynTagFirst(dyns, tag, i);
    }
  }

  function FirstPosition(dyns: seq<DynEntry>, tag: u64): (i: nat)
    requires HasEntry(dyns, tag)
    ensures i < |dyns| && IsFirst(dyns, tag, i)
  {
    if dyns[0].tag == tag then 0
    else
      assert forall k :: 0 <= k < |dyns| - 1 ==> dyns[1..][k] == dyns[k + 1];
      1 + FirstPosition(dyns[1..], tag)
  }

  lemma OneFirst(dyns: seq<DynEntry>, tag: nat, i: nat, j: nat)
    requires i < |dyns| && j < |dyns| && IsFirst(dyns, tag, i) && IsFirst(dyns, tag, j)
    ensures i == j
  {
  }

  lemma FlagHolds(dyns: seq<DynEntry>, tag: u64, bit: nat)
    requires bit > 0
    ensures FlagSet(dyns, tag, bit) <==> FirstHolds(dyns, tag, bit)
  {
    hide DynTag, HasBit, IsFirst;
    FirstEntry(dyns, tag);
    if HasEntry(dyns, tag) {
      var i: nat :| i < |dyns| && IsFirst(dyns, tag, i) && DynTag(dyns, tag) == Some(dyns[i].val);
      HasBitExact(dyns[i].val, bit);
      forall j: nat | j < |dyns| && IsFirst(dyns, tag, j)
        ensures j == i
      {
        OneFirst(dyns, tag, i, j);
      }
    } else {
      forall j: nat | j < |dyns|
        ensures !IsFirst(dyns, tag, j)
      {
        NotFirst(dyns, tag, j);
      }
    }
  }

  lemma NotFirst(dyns: seq<DynEntry>, tag: nat, j: nat)
    requires j < |dyns| && !HasEntry(dyns, tag)
    ensures !IsFirst(dyns, tag, j)
  {
  }

  lemma NowExact(dyns: seq<DynEntry>)
    ensures AnnouncesNow(dyns) <==> HasEntry(dyns, 24) || FirstHolds(dyns, 30, 8) || FirstHolds(dyns, 0x6fff_fffb, 1)
  {
    hide FlagSet, FirstHolds, DynTag;
    FirstEntry(dyns, 24);
    FlagHolds(dyns, 30, 8);
    FlagHolds(dyns, 0x6fff_fffb, 1);
  }

  // ---- Immediate binding and RELRO ---------------------------------------

  /** Binding is immediate when one of the two views has an entry with tag 24, or its first entry with tag 30 has
      bit 3 set, or its first entry with tag 0x6ffffffb has bit 0 set. */
  lemma BindNowMeaning(f: ElfFile, raw: seq<byte>)
    ensures var s, d := f.sections.dynamic, Dynamic(f, raw);
            var now := || HasEntry(s, 24) || FirstHolds(s, 30, 8) || FirstHolds(s, 0x6fff_fffb, 1)
                       || HasEntry(d, 24) || FirstHolds(d, 30, 8) || FirstHolds(d, 0x6fff_fffb, 1);
            BindNow(f, raw) == if now then Result("Bind now", Good) else Result("Lazy binding", Bad)
  {
    hide AnnouncesNow, HasEntry, FirstHolds, Dynamic;
    NowExact(f.sections.dynamic);
    NowExact(Dynamic(f, raw));
  }

  /** RELRO is full with a PT_GNU_RELRO header and immediate binding, partial with the header alone. */
  lemma RelroMeaning(f: ElfFile, raw: seq<byte>)
    ensures var s, d := f.sections.dynamic, Dynamic(f, raw);
            var now := || HasEntry(s, 24) || FirstHolds(s, 30, 8) || FirstHolds(s, 0x6fff_fffb, 1)
                       || HasEntry(d, 24) || FirstHolds(d, 30, 8) || FirstHolds(d, 0x6fff_fffb, 1);
            RelroVerdict(f, raw) ==
            if |f.progs| == 0 then Result("N/A", NA)
            else if !HasHeader(f.progs, 0x6474_e552) then Result("No RELRO", Bad)
            else if now then Result("Full RELRO", Good)
            else Result("Partial RELRO", Warn)
  {
    hide AnnouncesNow, HasEntry, FirstHolds, Dynamic;
    NowExact(f.sections.dynamic);
    NowExact(Dynamic(f, raw));
  }

  // ---- Executable stack --------------------------------------------------

  /** The first PT_GNU_STACK header decides by its lowest flag bit; one behind 10001 other headers is not reached. */
  lemma NxMeaning(f: ElfFile, k: nat)
    requires k < |f.progs| && f.progs[k].typ == 0x6474_e551
    requires forall i :: 0 <= i < k ==> f.progs[i].typ != 0x6474_e551
    ensures NxVerdict(f) ==
            if k > 10000 then Result("error checking NX", Bad)
            else if f.progs[k].flags % 2 == 0 then Result("NX enabled", Good)
            else Result("NX disabled", Bad)
  {
  }

  /** Without such a header the answer is open, or an error when there are more than 10001 headers. */
  lemma NxOpen(f: ElfFile)
    requires !HasHeader(f.progs, 0x6474_e551)
    ensures NxVerdict(f) ==
            if |f.progs| > 10001 then Result("error checking NX", Bad) else Result("NX unknown (no GNU_STACK)", Warn)
  {
  }

  // ---- Position independence ---------------------------------------------

  lemma PieFlag(f: ElfFile, raw: seq<byte>)
    ensures HasBit(Flags1(f, raw), 0x800_0000) <==>
            if HasEntry(f.sections.dynamic, 0x6fff_fffb) then FirstHolds(f.sections.dynamic, 0x6fff_fffb, 0x800_0000)
            else FirstHolds(Dynamic(f, raw), 0x6fff_fffb, 0x800_0000)
  {
    hide DynTag, FirstHolds, HasEntry, Dynamic, HasBit;
    FirstEntry(f.sections.dynamic, 0x6fff_fffb);
    FlagHolds(f.sections.dynamic, 0x6fff_fffb, 0x800_0000);
    FlagHolds(Dynamic(f, raw), 0x6fff_fffb, 0x800_0000);
    HasBitExact(0, 0x800_0000);
  }

  /** File type 3 with bit 27 in the first DT_FLAGS_1 value (of the sections, else of PT_DYNAMIC) or with a PT_INTERP
      header is position independent, static without that header; type 1 is an object file. */
  lemma PieMeaning(f: ElfFile, raw: seq<byte>)
    ensures var flag := if HasEntry(f.sections.dynamic, 0x6fff_fffb) then
                          FirstHolds(f.sections.dynamic, 0x6fff_fffb, 0x800_0000)
                        else FirstHolds(Dynamic(f, raw), 0x6fff_fffb, 0x800_0000);
            var interp := HasHeader(f.progs, 3);
            PieVerdict(f, raw) ==
            if f.typ == 3 then
              if flag && !interp then Result("Static PIE", Good)
              else if flag || interp then Result("PIE enabled", Good)
              else Result("DSO (shared library)", Info)
            else if f.typ == 1 then Result("REL (relocatable object)", Warn)
            else Result("PIE disabled", Bad)
  {
    hide FirstHolds, HasEntry, Dynamic, HasBit, Flags1;
    PieFlag(f, raw);
  }

  /** Only file type 3 is judged; text relocations are announced by tag 22 or by bit 2 of the first DT_FLAGS value. */
  lemma PicMeaning(f: ElfFile, raw: seq<byte>)
    ensures Pic(f, raw) ==
            if f.typ != 3 then Result("N/A", NA)
            else if HasEntry(Dynamic(f, raw), 22) || FirstHolds(Dynamic(f, raw), 30, 4) then
              Result("Text relocations (not PIC)", Bad)
            else Result("PIC enabled (no text relocations)", Good)
  {
    hide DynTag, FirstHolds, FlagSet, HasEntry, Dynamic;
    FirstEntry(Dynamic(f, raw), 22);
    FlagHolds(Dynamic(f, raw), 30, 4);
  }

  // ---- AArch64 alternatives to the canary --------------------------------

  lemma RetguardMeaning(f: ElfFile)
    ensures OhosRetguard(f) ==
            if f.machine != 183 then Result("N/A (not AArch64)", NA)
            else if f.sections.ohosRandomdata || HasHeader(f.progs, 0x6788_fc60) then Result("Retguard enabled", Good)
            else Result("No retguard", Bad)
  {
  }

  lemma CodeOccurs(data: seq<byte>)
    ensures ContainsCode(data) <==> Occurs(data, [0x7f, 0x23, 0x03, 0xd5])
  {
    var code: seq<byte> := [0x7f, 0x23, 0x03, 0xd5];
    if i: nat :| CodeAt(data, i) {
      assert data == data[..i] + code + data[i + 4..];
    }
    if a: seq<byte>, b: seq<byte> :| data == a + code + b {
      assert data[|a|..|a| + 4] == code;
      assert CodeAt(data, |a|);
    }
  }

  /** The four bytes count in a readable .text, or without one in a wholly readable header of type 1 whose lowest
      flag bit is set. */
  lemma PacMeaning(f: ElfFile, raw: seq<byte>)
    ensures var code: seq<byte> := [0x7f, 0x23, 0x03, 0xd5];
            var text := f.sections.text;
            var found := if text.Some? && text.value.Some? then Occurs(text.value.value, code)
                         else exists i :: 0 <= i < |f.progs| && f.progs[i].typ == 1 && f.progs[i].flags % 2 == 1 &&
                                          ReadSegment(raw, f.progs[i]).status == Full &&
                                          Occurs(ReadSegment(raw, f.progs[i]).data, code);
            PacCfiVerdict(f, raw) ==
            if f.machine != 183 then Result("N/A (not AArch64)", NA)
            else if found then Result("PAC CFI enabled", Good)
            else Result("No PAC CFI", Bad)
  {
    hide Occurs, ContainsCode, ReadSegment;
    var text := f.sections.text;
    if text.Some? && text.value.Some? {
      CodeOccurs(text.value.value);
    }
    forall i | 0 <= i < |f.progs|
      ensures SegmentHasCode(raw, f.progs[i]) <==>
              && f.progs[i].typ == 1 && f.progs[i].flags % 2 == 1 && ReadSegment(raw, f.progs[i]).status == Full
              && Occurs(ReadSegment(raw, f.progs[i]).data, [0x7f, 0x23, 0x03, 0xd5])
    {
      CodeOccurs(ReadSegment(raw, f.progs[i]).data);
    }
  }

  // ---- Symbol names ------------------------------------------------------

  /** The table lists a symbol of that name, whatever its type. */
  predicate NamesSymbol(syms: Option<seq<Sym>>, n: GoString) {
    syms.Some? && exists i :: 0 <= i < |syms.value| && syms.value[i].name == n
  }

  lemma NamesOfTable(syms: Option<seq<Sym>>, n: GoString)
    ensures n in NamesOfSyms(syms) <==> NamesSymbol(syms, n)
  {
    if syms.Some? {
      var names := NamesOfSyms(syms);
      if i :| 0 <= i < |syms.value| && syms.value[i].name == n {
        assert names[i] == n;
      }
    }
  }

  /** A name in the static symbols, the dynamic ones or those of the program headers that starts with one of the
      four markers is a canary, and nothing else is. */
  lemma CanaryMeaning(f: ElfFile, raw: seq<byte>)
    requires Scannable(f, raw)
    ensures var canary :=
              exists n: GoString ::
                && (NamesSymbol(f.sections.symbols, n) || NamesSymbol(f.sections.dynSymbols, n) ||
                    n in SymbolNamesPH(f, raw))
                && (HasPrefix(n, "__stack_chk_fail") || HasPrefix(n, "__stack_chk_guard") ||
                    HasPrefix(n, "__intel_security_cookie") || HasPrefix(n, "__intel_security_check_cookie"));
            CanaryVerdict(f, raw) == if canary then Result("Canary found", Good) else Result("No canary found", Bad)
  {
    hide NamesSymbol, SymbolNamesPH, NamesOfSyms, IsCanarySymbol, HasPrefix, FirstOccurrences, Scannable;
    CanaryOfNames(AdvertisedNames(f, raw));
    forall n: GoString
      ensures n in AdvertisedNames(f, raw) <==>
              NamesSymbol(f.sections.symbols, n) || NamesSymbol(f.sections.dynSymbols, n) || n in SymbolNamesPH(f, raw)
      ensures IsCanarySymbol(n) <==>
              HasPrefix(n, "__stack_chk_fail") || HasPrefix(n, "__stack_chk_guard") ||
              HasPrefix(n, "__intel_security_cookie") || HasPrefix(n, "__intel_security_check_cookie")
    {
      NamesOfTable(f.sections.symbols, n);
      NamesOfTable(f.sections.dynSymbols, n);
      CanaryPrefixes(n);
    }
    var names := AdvertisedNames(f, raw);
    if i :| 0 <= i < |names| && IsCanarySymbol(names[i]) {
      assert names[i] in names;
    }
  }

  lemma CanaryPrefixes(n: string)
    ensures IsCanarySymbol(n) <==>
            HasPrefix(n, "__stack_chk_fail") || HasPrefix(n, "__stack_chk_guard") ||
            HasPrefix(n, "__intel_security_cookie") || HasPrefix(n, "__intel_security_check_cookie")
  {
    hide HasPrefix;
    assert |CANARY_PREFIXES| == 4;
    assert CANARY_PREFIXES[0] == "__stack_chk_fail" && CANARY_PREFIXES[1] == "__stack_chk_guard";
    assert CANARY_PREFIXES[2] == "__intel_security_cookie";
    assert CANARY_PREFIXES[3] == "__intel_security_check_cookie";
  }

  // ---- Needed libraries --------------------------------------------------

  /** The analysis is off without a PT_DYNAMIC header, or when no needed library starts with "libc.so" or contains
      "libc-". */
  lemma LibcMeaning(f: ElfFile, raw: seq<byte>)
    ensures !NoLibc(f, raw) <==>
            && HasHeader(f.progs, 2)
            && exists i :: 0 <= i < |DynamicStringsFor(f, raw, 1)| &&
                           (HasPrefix(DynamicStringsFor(f, raw, 1)[i], "libc.so") ||
                            Contains(DynamicStringsFor(f, raw, 1)[i], "libc-"))
  {
    hide DynamicStringsFor, HasPrefix, Contains;
  }

  /** The string of an entry is listed by the section view when a zero byte ends it inside the table. */
  lemma SectionStringsOfOne(str: seq<byte>, e: DynEntry, tag: u64)
    ensures SectionStrings(str, [e], tag) ==
            if e.tag == tag && e.val < |str| && (exists i :: e.val <= i < |str| && str[i] == 0) then
              [CstrAt(str, e.val).value]
            else []
  {
    assert [e][1..] == [];
    if e.val < |str| {
      var rest := str[e.val..];
      assert forall k :: 0 <= k < |rest| ==> rest[k] == str[e.val + k];
      if i :| e.val <= i < |str| && str[i] == 0 {
        assert rest[i - e.val] == 0;
      }
    }
  }

  lemma {:induction false} SectionStringsConcat(str: seq<byte>, a: seq<DynEntry>, b: seq<DynEntry>, tag: u64)
    ensures SectionStrings(str, a + b, tag) == SectionStrings(str, a, tag) + SectionStrings(str, b, tag)
  {
    hide Terminated, CstrAt;
    if a == [] {
      assert a + b == b;
    } else {
      assert (a + b)[1..] == a[1..] + b;
      SectionStringsConcat(str, a[1..], b, tag);
    }
  }

  /** The section view decides when it lists a string, and PT_DYNAMIC otherwise. */
  lemma StringsForMeaning(f: ElfFile, raw: seq<byte>, tag: u64)
    ensures var s := SectionStrings(f.sections.dynstr, f.sections.dynamic, tag);
            DynamicStringsFor(f, raw, tag) ==
            if s != [] then s
            else if DynamicStrings(f.progs, raw, Dynamic(f, raw)).None? then []
            else StringsOf(DynamicStrings(f.progs, raw, Dynamic(f, raw)).value, Dynamic(f, raw), tag)
  {
    hide SectionStrings, DynamicStrings, StringsOf, Dynamic;
  }
}
