/** The checks that look at segments, dynamic entries, symbols and code bytes. */
module Detectors {
  import opened Bytes
  import opened Strings
  import opened Results
  import opened Elf
  import opened Dyn
  import opened DynProperties

  // ---- Segments ----------------------------------------------------------

  predicate HasSegment(progs: seq<Prog>, typ: u32) {
    exists i :: 0 <= i < |progs| && progs[i].typ == typ
  }

  method FindSegment(progs: seq<Prog>, typ: u32) returns (found: bool)
    ensures found == HasSegment(progs, typ)
  {
    found := false;
    for i := 0 to |progs|
      invariant !found
      invariant forall k :: 0 <= k < i ==> progs[k].typ != typ
    {
      if progs[i].typ == typ {
        found := true;
        break;
      }
    }
  }

  // ---- Immediate binding -------------------------------------------------

  predicate FlagSet(dyns: seq<DynEntry>, tag: u64, mask: nat)
    requires mask > 0
  {
    var v := DynTag(dyns, tag);
    v.Some? && HasBit(v.value, mask)
  }

  predicate AnnouncesNow(dyns: seq<DynEntry>) {
    DynTag(dyns, DT_BIND_NOW).Some? || FlagSet(dyns, DT_FLAGS, DF_BIND_NOW) || FlagSet(dyns, DT_FLAGS_1, DF_1_NOW)
  }

  /** Either the section view or the PT_DYNAMIC view announces immediate binding. */
  predicate BindNowOf(f: ElfFile, raw: seq<byte>) {
    AnnouncesNow(f.sections.dynamic) || AnnouncesNow(Dynamic(f, raw))
  }

  function BindNow(f: ElfFile, raw: seq<byte>): Result {
    if BindNowOf(f, raw) then OkResult("Bind now") else BadResult("Lazy binding")
  }

  // ---- RELRO -------------------------------------------------------------

  function RelroVerdict(f: ElfFile, raw: seq<byte>): Result {
    if f.progs == [] then NaResult("N/A")
    else if !HasSegment(f.progs, PT_GNU_RELRO) then BadResult("No RELRO")
    else if BindNowOf(f, raw) then OkResult("Full RELRO")
    else WarnResult("Partial RELRO")
  }

  method Relro(f: ElfFile, raw: seq<byte>) returns (r: Result)
    ensures r == RelroVerdict(f, raw)
  {
    if |f.progs| == 0 {
      return NaResult("N/A");
    }
    var hasRelroSeg := FindSegment(f.progs, PT_GNU_RELRO);
    if hasRelroSeg && BindNowOf(f, raw) {
      r := OkResult("Full RELRO");
    } else if hasRelroSeg {
      r := WarnResult("Partial RELRO");
    } else {
      r := BadResult("No RELRO");
    }
  }

  // ---- Executable stack --------------------------------------------------

  const MAX_PROGS := 10001

  /** The first PT_GNU_STACK header, or the number of headers. */
  function StackIndex(progs: seq<Prog>): (k: nat)
    ensures k <= |progs|
    ensures forall i :: 0 <= i < k ==> progs[i].typ != PT_GNU_STACK
    ensures k < |progs| ==> progs[k].typ == PT_GNU_STACK
  {
    if progs == [] || progs[0].typ == PT_GNU_STACK then 0 else 1 + StackIndex(progs[1..])
  }

  function NxVerdict(f: ElfFile): Result {
    var k := StackIndex(f.progs);
    if k < |f.progs| && k < MAX_PROGS then
      if HasBit(f.progs[k].flags, PF_X) then BadResult("NX disabled") else OkResult("NX enabled")
    else if |f.progs| > MAX_PROGS then ErrResult("NX")
    else WarnResult("NX unknown (no GNU_STACK)")
  }

  method Nx(f: ElfFile) returns (r: Result)
    ensures r == NxVerdict(f)
  {
    var gnuStack: Option<Prog> := None;
    for i := 0 to |f.progs|
      invariant gnuStack == None
      invariant i <= MAX_PROGS
      invariant forall k :: 0 <= k < i ==> f.progs[k].typ != PT_GNU_STACK
    {
      if i > 10000 {
        return ErrResult("NX");
      }
      if f.progs[i].typ == PT_GNU_STACK {
        gnuStack := Some(f.progs[i]);
        break;
      }
    }
    if gnuStack.None? {
      r := WarnResult("NX unknown (no GNU_STACK)");
    } else if !HasBit(gnuStack.value.flags, PF_X) {
      r := OkResult("NX enabled");
    } else {
      r := BadResult("NX disabled");
    }
  }

  // ---- Position independence ---------------------------------------------

  /** DT_FLAGS_1 from the sections, else from PT_DYNAMIC, else zero. */
  function Flags1(f: ElfFile, raw: seq<byte>): u64 {
    match DynTag(f.sections.dynamic, DT_FLAGS_1)
    case Some(v) => v
    case None =>
      match DynTag(Dynamic(f, raw), DT_FLAGS_1)
      case Some(v) => v
      case None => 0
  }

  function PieVerdict(f: ElfFile, raw: seq<byte>): Result {
    var flag, interp := HasBit(Flags1(f, raw), DF_1_PIE), HasSegment(f.progs, PT_INTERP);
    if f.typ == ET_DYN then
      if flag && !interp then OkResult("Static PIE")
      else if flag || interp then OkResult("PIE enabled")
      else InfoResult("DSO (shared library)")
    else if f.typ == ET_REL then WarnResult("REL (relocatable object)")
    else BadResult("PIE disabled")
  }

  method Pie(f: ElfFile, raw: seq<byte>) returns (r: Result)
    ensures r == PieVerdict(f, raw)
  {
    var hasInterp := FindSegment(f.progs, PT_INTERP);
    var flags1: u64 := 0;
    var v := DynTag(f.sections.dynamic, DT_FLAGS_1);
    if v.Some? {
      flags1 := v.value;
    } else {
      var dyns := ParsePTDynamic(f, raw);
      if |dyns| > 0 {
        v := DynTag(dyns, DT_FLAGS_1);
        if v.Some? {
          flags1 := v.value;
        }
      }
    }
    var hasPieFlag := HasBit(flags1, DF_1_PIE);
    if f.typ == ET_DYN {
      if hasPieFlag && !hasInterp {
        r := OkResult("Static PIE");
      } else if hasPieFlag || hasInterp {
        r := OkResult("PIE enabled");
      } else {
        r := InfoResult("DSO (shared library)");
      }
    } else if f.typ == ET_REL {
      r := WarnResult("REL (relocatable object)");
    } else {
      r := BadResult("PIE disabled");
    }
  }

  predicate TextRelocations(dyns: seq<DynEntry>) {
    DynTag(dyns, DT_TEXTREL).Some? || FlagSet(dyns, DT_FLAGS, DF_TEXTREL)
  }

  function Pic(f: ElfFile, raw: seq<byte>): Result {
    if f.typ != ET_DYN then NaResult("N/A")
    else if TextRelocations(Dynamic(f, raw)) then BadResult("Text relocations (not PIC)")
    else OkResult("PIC enabled (no text relocations)")
  }

  // ---- AArch64 alternatives to the canary --------------------------------

  function OhosRetguard(f: ElfFile): Result {
    if f.machine != EM_AARCH64 then NaResult("N/A (not AArch64)")
    else if f.sections.ohosRandomdata || HasSegment(f.progs, PT_OHOS_RETGUARD) then OkResult("Retguard enabled")
    else BadResult("No retguard")
  }

  const PACIBSP_CODE: seq<byte> := [0x7f, 0x23, 0x03, 0xd5]

  predicate CodeAt(data: seq<byte>, i: nat) {
    i + 4 <= |data| && data[i..i + 4] == PACIBSP_CODE
  }

  ghost predicate ContainsCode(data: seq<byte>) {
    exists i: nat :: CodeAt(data, i)
  }

  /** An executable segment that can be read whole and contains the instruction. */
  ghost predicate SegmentHasCode(raw: seq<byte>, p: Prog) {
    && p.typ == PT_LOAD && HasBit(p.flags, PF_X)
    && ReadSegment(raw, p).status.Full? && ContainsCode(ReadSegment(raw, p).data)
  }

  ghost function PacCfiVerdict(f: ElfFile, raw: seq<byte>): Result {
    if f.machine != EM_AARCH64 then NaResult("N/A (not AArch64)")
    else if f.sections.text.Some? && f.sections.text.value.Some? then
      if ContainsCode(f.sections.text.value.value) then OkResult("PAC CFI enabled") else BadResult("No PAC CFI")
    else if exists i :: 0 <= i < |f.progs| && SegmentHasCode(raw, f.progs[i]) then OkResult("PAC CFI enabled")
    else BadResult("No PAC CFI")
  }

  method FindCode(data: seq<byte>) returns (found: bool)
    ensures found == ContainsCode(data)
  {
    found := false;
    var i := 0;
    while i + 4 <= |data|
      invariant !found
      invariant forall k: nat :: k < i ==> !CodeAt(data, k)
    {
      if CodeAt(data, i) {
        return true;
      }
      i := i + 1;
    }
  }

  method PacCfi(f: ElfFile, raw: seq<byte>) returns (r: Result)
    ensures r == PacCfiVerdict(f, raw)
  {
    if f.machine != EM_AARCH64 {
      return NaResult("N/A (not AArch64)");
    }
    if f.sections.text.Some? && f.sections.text.value.Some? {
      var found := FindCode(f.sections.text.value.value);
      if found {
        return OkResult("PAC CFI enabled");
      }
      return BadResult("No PAC CFI");
    }
    for i := 0 to |f.progs|
      invariant forall k :: 0 <= k < i ==> !SegmentHasCode(raw, f.progs[k])
    {
      var p := f.progs[i];
      if p.typ != PT_LOAD || !HasBit(p.flags, PF_X) {
        continue;
      }
      var data := ReadSegment(raw, p);
      var found := FindCode(data.data);
      if data.status.Full? && found {
        return OkResult("PAC CFI enabled");
      }
    }
    r := BadResult("No PAC CFI");
  }

  // ---- Stack canary ------------------------------------------------------

  const CANARY_PREFIXES: seq<string> :=
    ["__stack_chk_fail", "__stack_chk_guard", "__intel_security_cookie", "__intel_security_check_cookie"]

  predicate IsCanarySymbol(name: string) {
    exists i :: 0 <= i < |CANARY_PREFIXES| && HasPrefix(name, CANARY_PREFIXES[i])
  }

  predicate SomeCanary(names: seq<string>) {
    exists i :: 0 <= i < |names| && IsCanarySymbol(names[i])
  }

  function CanaryVerdict(f: ElfFile, raw: seq<byte>): Result
    requires Scannable(f, raw)
  {
    if SomeCanary(FirstOccurrences(AdvertisedNames(f, raw))) then OkResult("Canary found")
    else BadResult("No canary found")
  }

  method Canary(f: ElfFile, raw: seq<byte>) returns (r: Result)
    requires Scannable(f, raw)
    ensures r == CanaryVerdict(f, raw)
  {
    var names := AllSymbolNames(f, raw);
    for i := 0 to |names|
      invariant forall k :: 0 <= k < i ==> !IsCanarySymbol(names[k])
    {
      if IsCanarySymbol(names[i]) {
        return OkResult("Canary found");
      }
    }
    r := BadResult("No canary found");
  }

  /** Dropping repetitions and empty names does not affect the canary. */
  lemma CanaryOfNames(names: seq<GoString>)
    ensures SomeCanary(FirstOccurrences(names)) <==> SomeCanary(names)
  {
    FirstOccurrencesSet(names);
    EmptyNotCanary();
    hide IsCanarySymbol, FirstOccurrences;
    var out := FirstOccurrences(names);
    if i :| 0 <= i < |out| && IsCanarySymbol(out[i]) {
      assert out[i] in names;
    }
    if i :| 0 <= i < |names| && IsCanarySymbol(names[i]) {
      assert names[i] in out;
    }
  }

  lemma EmptyNotCanary()
    ensures !IsCanarySymbol("")
  {
  }

  // ---- Strings by tag, from either view ----------------------------------

  /** Whether the string at `off` ends with a zero byte inside the table. */
  predicate Terminated(str: seq<byte>, off: u64) {
    off < |str| && IndexOfZero(str[off..]) < |str| - off
  }

  /** The section view resolves terminated strings only. */
  function SectionStrings(str: seq<byte>, dyns: seq<DynEntry>, tag: u64): seq<GoString> {
    if dyns == [] then []
    else
      var rest := SectionStrings(str, dyns[1..], tag);
      if dyns[0].tag != tag || !Terminated(str, dyns[0].val) then rest
      else [CstrAt(str, dyns[0].val).value] + rest
  }

  function DynamicStringsFor(f: ElfFile, raw: seq<byte>, tag: u64): seq<GoString> {
    var v := SectionStrings(f.sections.dynstr, f.sections.dynamic, tag);
    if |v| > 0 then v else DynStringsPH(f, raw, tag)
  }

  // ---- Does the binary link against a libc? ------------------------------

  predicate IsLibcName(n: string) {
    HasPrefix(n, "libc.so") || Contains(n, "libc-")
  }

  predicate SomeLibc(names: seq<string>) {
    exists i :: 0 <= i < |names| && IsLibcName(names[i])
  }

  /** FORTIFY analysis is off: no dynamic section, or no libc among the needed libraries. */
  predicate NoLibc(f: ElfFile, raw: seq<byte>) {
    !HasSegment(f.progs, PT_DYNAMIC) || !SomeLibc(DynamicStringsFor(f, raw, DT_NEEDED))
  }

  /** The decision part of resolveLibcFlag: whether it answers "none". */
  method ResolveLibcFlag(f: ElfFile, raw: seq<byte>) returns (none: bool)
    ensures none == NoLibc(f, raw)
  {
    hide IsLibcName, SectionStrings, Dynamic, DynStringsPH;
    var hasDynamic := false;
    for i := 0 to |f.progs|
      invariant hasDynamic == HasSegment(f.progs[..i], PT_DYNAMIC)
    {
      assert f.progs[..i + 1] == f.progs[..i] + [f.progs[i]];
      if f.progs[i].typ == PT_DYNAMIC {
        assert f.progs[..i + 1][i].typ == PT_DYNAMIC;
        hasDynamic := true;
      }
    }
    assert f.progs[..|f.progs|] == f.progs;
    if !hasDynamic {
      return true;
    }
    var needed := SectionStrings(f.sections.dynstr, f.sections.dynamic, DT_NEEDED);
    if |needed| == 0 {
      var dyns := ParsePTDynamic(f, raw);
      needed := DynStringPH(f, raw, dyns, DT_NEEDED);
    }
    assert needed == DynamicStringsFor(f, raw, DT_NEEDED);
    var hasLibc := false;
    for i := 0 to |needed|
      invariant !hasLibc
      invariant forall k :: 0 <= k < i ==> !IsLibcName(needed[k])
    {
      if IsLibcName(needed[i]) {
        hasLibc := true;
        break;
      }
    }
    none := !hasLibc;
  }
}
