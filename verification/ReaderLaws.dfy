/** What the program-header reader computes, in terms of the bytes and numbers of the file alone. */
module ReaderLaws {
  import opened Bytes
  import opened Elf
  import opened Dyn
  import opened DynProperties

  // ---- Numbers and entries -----------------------------------------------

  /** Four bytes at `at` as a number: the first is the lowest in little-endian files, the highest in big-endian ones. */
  function U32At(data: seq<byte>, at: nat, order: ByteOrder): nat
    requires at + 4 <= |data|
  {
    if order.LittleEndian? then Digits4(data[at], data[at + 1], data[at + 2], data[at + 3])
    else Digits4(data[at + 3], data[at + 2], data[at + 1], data[at])
  }

  /** Eight bytes at `at` as a number. */
  function U64At(data: seq<byte>, at: nat, order: ByteOrder): nat
    requires at + 8 <= |data|
  {
    if order.LittleEndian? then U32At(data, at, order) + 0x1_0000_0000 * U32At(data, at + 4, order)
    else U32At(data, at + 4, order) + 0x1_0000_0000 * U32At(data, at, order)
  }

  /** A 64-bit entry is two eight-byte numbers, a 32-bit one two four-byte numbers: the tag, then the value. */
  lemma EntryAtExact(data: seq<byte>, at: nat, cls: Class, order: ByteOrder)
    requires at + (if cls.Elf64? then 16 else 8) <= |data|
    ensures var e := EntryAt(data, at, cls, order);
            if cls.Elf64? then e.tag == U64At(data, at, order) && e.val == U64At(data, at + 8, order)
            else e.tag == U32At(data, at, order) && e.val == U32At(data, at + 4, order)
  {
    hide Get, U32At, U64At;
    if cls.Elf64? {
      U64Read(data, at, order);
      U64Read(data, at + 8, order);
    } else {
      U32Read(data, at, order);
      U32Read(data, at + 4, order);
    }
  }

  lemma U32Read(data: seq<byte>, at: nat, order: ByteOrder)
    requires at + 4 <= |data|
    ensures Get(order, data[at..at + 4]) == U32At(data, at, order)
  {
    hide Get, Digits4;
    Get4(data[at..at + 4]);
  }

  lemma U64Read(data: seq<byte>, at: nat, order: ByteOrder)
    requires at + 8 <= |data|
    ensures Get(order, data[at..at + 8]) == U64At(data, at, order)
  {
    hide Get, Digits4;
    Get8(data[at..at + 8]);
  }

  function EntrySize(cls: Class): nat {
    if cls.Elf64? then 16 else 8
  }

  /** Where entry `k` starts. */
  function EntryStart(cls: Class, k: nat): nat {
    if cls.Elf64? then 16 * k else 8 * k
  }

  /** The entries stand one behind the other from the start of the data, and the list ends where no whole entry
      is left or a tag is zero. */
  lemma {:induction false} DynEntriesExact(data: seq<byte>, cls: Class, order: ByteOrder, k: nat)
    ensures var es := DynEntries(data, cls, order);
            && (k < |es| ==>
                  && EntryStart(cls, k) + EntrySize(cls) <= |data|
                  && es[k] == EntryAt(data, EntryStart(cls, k), cls, order) && es[k].tag != 0)
            && (k == |es| ==>
                  || EntryStart(cls, k) + EntrySize(cls) > |data|
                  || EntryAt(data, EntryStart(cls, k), cls, order).tag == 0)
    decreases k
  {
    hide EntryAt;
    var w := EntrySize(cls);
    if |data| >= w && EntryAt(data, 0, cls, order).tag != 0 {
      var rest := data[w..];
      assert DynEntries(data, cls, order) == [EntryAt(data, 0, cls, order)] + DynEntries(rest, cls, order);
      if k > 0 {
        DynEntriesExact(rest, cls, order, k - 1);
        if EntryStart(cls, k) + w <= |data| {
          EntryShifted(data, w, EntryStart(cls, k - 1), cls, order);
        }
      }
    }
  }

  lemma EntryShifted(data: seq<byte>, w: nat, at: nat, cls: Class, order: ByteOrder)
    requires w + at + EntrySize(cls) <= |data|
    ensures EntryAt(data[w..], at, cls, order) == EntryAt(data, w + at, cls, order)
  {
    hide Get;
    var h := HalfEntry(cls);
    assert data[w..][at..at + h] == data[w + at..w + at + h];
    assert data[w..][at + h..at + 2 * h] == data[w + at + h..w + at + 2 * h];
  }

  // ---- Reading the file --------------------------------------------------

  /** A read fills the buffer with the file's bytes and leaves zeros behind its end; it fails at a negative offset
      and is complete exactly when the whole range lies in the file. */
  lemma ReadAtExact(raw: seq<byte>, off: int, n: nat)
    ensures var r := ReadAt(raw, off, n);
            && (r.status == Invalid <==> off < 0)
            && (r.status == Full <==> off >= 0 && (n == 0 || off + n <= |raw|))
            && forall i :: 0 <= i < n ==> r.data[i] == if 0 <= off && off + i < |raw| then raw[off + i] else 0
  {
  }

  /** A segment is read from its file offset, which Go takes as a signed number; an empty one reads as end of file. */
  lemma ReadSegmentExact(raw: seq<byte>, p: Prog)
    ensures var r := ReadSegment(raw, p);
            && (p.filesz == 0 ==> r == Read([], Eof))
            && (p.filesz > 0 && p.off >= 0x8000_0000_0000_0000 ==> r.status == Invalid)
            && (p.filesz > 0 && p.off < 0x8000_0000_0000_0000 ==>
                  && (r.status == if p.off + p.filesz <= |raw| then Full else Eof)
                  && forall i :: 0 <= i < p.filesz ==> r.data[i] == if p.off + i < |raw| then raw[p.off + i] else 0)
  {
    ReadAtExact(raw, ToI64(p.off), p.filesz);
  }

  /** Only headers of type 2 contribute entries, and only those whose bytes can be read. */
  lemma DynamicOfSegment(p: Prog, cls: Class, order: ByteOrder, raw: seq<byte>)
    ensures PtDynamic([p], cls, order, raw) ==
            if p.typ == 2 && ReadSegment(raw, p).status != Invalid then DynEntries(ReadSegment(raw, p).data, cls, order)
            else []
  {
    hide ReadSegment, DynEntries;
    assert [p][1..] == [];
  }

  // ---- Strings -----------------------------------------------------------

  /** The string at an offset of the table is the zero-free text from there to the next zero or to the end. */
  lemma CstrExact(str: seq<byte>, off: u64, s: GoString)
    ensures CstrAt(str, off) == Some(s) <==>
            && off + |s| <= |str| && off < |str|
            && (forall i :: 0 <= i < |s| ==> str[off + i] == s[i] as int && s[i] as int != 0)
            && (off + |s| == |str| || str[off + |s|] == 0)
  {
    if off < |str| {
      var rest := str[off..];
      var z := IndexOfZero(rest);
      assert forall k :: 0 <= k < |rest| ==> rest[k] == str[off + k];
      assert str[off..off + z] == rest[..z];
      CstrOf(rest, s);
    }
  }

  lemma CstrOf(rest: seq<byte>, s: GoString)
    ensures Text(rest[..IndexOfZero(rest)]) == s <==>
            && |s| <= |rest| && (forall i :: 0 <= i < |s| ==> rest[i] == s[i] as int && s[i] as int != 0)
            && (|s| == |rest| || rest[|s|] == 0)
  {
    var z := IndexOfZero(rest);
    var t := Text(rest[..z]);
    if |s| <= |rest| && (forall i :: 0 <= i < |s| ==> rest[i] == s[i] as int && s[i] as int != 0) &&
       (|s| == |rest| || rest[|s|] == 0) {
      assert |s| == z;
      assert forall i :: 0 <= i < z ==> t[i] == s[i];
    }
    if t == s {
      assert forall i :: 0 <= i < z ==> t[i] == rest[i] as char;
    }
  }

  /** An entry contributes its string when it has the tag and its value lies in the table. */
  lemma StringsOfOne(str: seq<byte>, e: DynEntry, tag: u64)
    ensures StringsOf(str, [e], tag) ==
            if e.tag == tag && e.val < |str| then [CstrAt(str, e.val).value] else []
  {
    assert [e][1..] == [];
  }

  /** The string table is found exactly when its address (tag 5) and a size (tag 10) from 1 to 2^24 are given and a
      segment maps the address to a non-negative file offset; it is the file's bytes there, zeros past the end. */
  lemma StringTableExact(progs: seq<Prog>, raw: seq<byte>, dyns: seq<DynEntry>)
    ensures var found := DynamicStrings(progs, raw, dyns);
            found.Some? <==>
              && DynTag(dyns, 5).Some? && DynTag(dyns, 10).Some? && 1 <= DynTag(dyns, 10).value <= 0x100_0000
              && VaddrToFileOffset(progs, DynTag(dyns, 5).value).Some?
              && VaddrToFileOffset(progs, DynTag(dyns, 5).value).value >= 0
    ensures var found := DynamicStrings(progs, raw, dyns);
            found.Some? ==>
              var off := VaddrToFileOffset(progs, DynTag(dyns, 5).value).value;
              && |found.value| == DynTag(dyns, 10).value
              && forall i :: 0 <= i < |found.value| ==> found.value[i] == if off + i < |raw| then raw[off + i] else 0
  {
    hide DynTag, VaddrToFileOffset, ReadAt;
    var strtab, strsz := DynTag(dyns, 5), DynTag(dyns, 10);
    if strtab.Some? && strsz.Some? && 1 <= strsz.value <= 0x100_0000 && VaddrToFileOffset(progs, strtab.value).Some? {
      ReadAtExact(raw, VaddrToFileOffset(progs, strtab.value).value, strsz.value);
    }
  }

  // ---- The symbol table --------------------------------------------------

  /** The entry size is the first DT_SYMENT (tag 11) unless it is zero; else 24 bytes, or 16 in 32-bit files. */
  lemma SymentExact(cls: Class, dyns: seq<DynEntry>)
    ensures Syment(cls, dyns) ==
            if DynTag(dyns, 11).Some? && DynTag(dyns, 11).value != 0 then DynTag(dyns, 11).value
            else if cls == Elf64 then 24 else 16
  {
    hide DynTag;
  }

  /** The size bound for every header list: what is left of the covering segment, at most 2^24, and 2^20 when nothing
      covers the address or more than a signed number is left. */
  lemma ScanLimitExact(progs: seq<Prog>, symtab: u64)
    ensures ScanLimit(progs, symtab) ==
            match CoveringLoad(progs, symtab)
            case None => 0x10_0000
            case Some(p) =>
              var room := p.vaddr + p.filesz - symtab;
              if room >= 0x8000_0000_0000_0000 then 0x10_0000 else if room > 0x100_0000 then 0x100_0000 else room
  {
    match CoveringLoad(progs, symtab) {
      case None =>
      case Some(p) =>
        CoversExactly(p, symtab);
        var room := p.vaddr + p.filesz - symtab;
        assert room % TWO_TO_64 == room;
    }
  }

  /** A sum of signed numbers is wrapped into the signed range, congruent to the sum. */
  lemma WrapExact(v: int, w: int)
    requires -0x8000_0000_0000_0000 <= w < 0x8000_0000_0000_0000
    ensures w == WrapI64(v) <==> w % 0x1_0000_0000_0000_0000 == v % 0x1_0000_0000_0000_0000
  {
  }

  /** The first PT_LOAD header (type 1) that covers the address decides the translation. */
  lemma OffsetExact(progs: seq<Prog>, vaddr: u64, k: nat)
    requires k < |progs| && progs[k].typ == 1 && Covers(progs[k], vaddr)
    requires forall i :: 0 <= i < k && progs[i].typ == 1 ==> !Covers(progs[i], vaddr)
    ensures CoveringLoad(progs, vaddr) == Some(progs[k])
    ensures VaddrToFileOffset(progs, vaddr) ==
            Some(ToI64((vaddr - progs[k].vaddr + progs[k].off) % 0x1_0000_0000_0000_0000))
  {
    FirstCovering(progs, vaddr, k);
  }

  lemma {:induction false} FirstCovering(progs: seq<Prog>, vaddr: u64, k: nat)
    requires k < |progs| && progs[k].typ == 1 && Covers(progs[k], vaddr)
    requires forall i :: 0 <= i < k && progs[i].typ == 1 ==> !Covers(progs[i], vaddr)
    ensures CoveringLoad(progs, vaddr) == Some(progs[k])
  {
    hide Covers;
    if k > 0 {
      assert forall i :: 0 <= i < |progs| - 1 ==> progs[1..][i] == progs[i + 1];
      FirstCovering(progs[1..], vaddr, k - 1);
    }
  }

  /** The symbol table is found exactly when its address (tag 6) is given and mapped and the string table is found. */
  lemma SymTableExact(f: ElfFile, raw: seq<byte>)
    ensures var dyns := Dynamic(f, raw);
            var str := DynamicStrings(f.progs, raw, dyns);
            FindSymTable(f, raw) ==
            if DynTag(dyns, 6).Some? && str.Some? && VaddrToFileOffset(f.progs, DynTag(dyns, 6).value).Some? then
              Some(SymTable(str.value, VaddrToFileOffset(f.progs, DynTag(dyns, 6).value).value, Syment(f.cls, dyns),
                            ScanLimit(f.progs, DynTag(dyns, 6).value)))
            else None
  {
    hide DynTag, DynamicStrings, VaddrToFileOffset, ScanLimit, Syment, Dynamic;
  }

  /** A record names a function when the low half of its info byte is 2 and its offset holds a non-empty string. */
  lemma RecordNameExact(rec: SymRecord, str: seq<byte>, n: GoString)
    ensures RecordName(rec, str) == [n] <==> rec.info % 16 == 2 && n != "" && CstrAt(str, rec.nameOff) == Some(n)
    ensures RecordName(rec, str) != [] ==> rec.info % 16 == 2
  {
    hide CstrAt;
  }

  /** The three symbol sources in scan order: static, dynamic, program headers. */
  lemma AdvertisedExact(f: ElfFile, raw: seq<byte>, n: GoString)
    requires Scannable(f, raw) && n in AdvertisedNames(f, raw)
    ensures n in NamesOfSyms(f.sections.symbols) ==>
              FirstIndex(AdvertisedNames(f, raw), n) < |NamesOfSyms(f.sections.symbols)|
    ensures n !in NamesOfSyms(f.sections.symbols) && n in NamesOfSyms(f.sections.dynSymbols) ==>
              |NamesOfSyms(f.sections.symbols)| <= FirstIndex(AdvertisedNames(f, raw), n) <
                |NamesOfSyms(f.sections.symbols)| + |NamesOfSyms(f.sections.dynSymbols)|
  {
    hide SymbolNamesPH, NamesOfSyms, Scannable;
    var a, b, all := NamesOfSyms(f.sections.symbols), NamesOfSyms(f.sections.dynSymbols), AdvertisedNames(f, raw);
    assert forall i :: 0 <= i < |a| ==> all[i] == a[i];
    assert forall i :: 0 <= i < |b| ==> all[|a| + i] == b[i];
    if n in a {
      var i :| 0 <= i < |a| && a[i] == n;
      assert all[i] == n;
    } else if n in b {
      var i :| 0 <= i < |b| && b[i] == n;
      assert all[|a| + i] == n;
    }
  }

  // ---- Opening a file ----------------------------------------------------

  function U16At(raw: seq<byte>, at: nat): nat
    requires at + 2 <= |raw|
  {
    Digits4(raw[at], raw[at + 1], 0, 0)
  }

  lemma U16Read(raw: seq<byte>, at: nat)
    requires at + 2 <= |raw|
    ensures Word(raw, at, 2) == U16At(raw, at)
  {
    var b := raw[at..at + 2];
    assert b[1..][1..] == [];
    assert LeValue(b[1..]) == b[1];
  }

  /** What makes the reader accept an image: the magic bytes, 64-bit little-endian version 1, no section headers, and
      program headers of 56 bytes inside the file whose offsets and sizes are signed numbers. */
  lemma NewFileExact(raw: seq<byte>)
    ensures NewFile(raw).Some? <==>
            && |raw| >= 64
            && raw[0] == 0x7f && raw[1] == 0x45 && raw[2] == 0x4c && raw[3] == 0x46
            && raw[4] == 2 && raw[5] == 1 && raw[6] == 1
            && U64At(raw, 40, LittleEndian) == 0 && U16At(raw, 60) == 0 && U16At(raw, 54) == 56
            && U64At(raw, 32, LittleEndian) + 56 * U16At(raw, 56) <= |raw|
            && Addressable(ReadProgs(raw, U64At(raw, 32, LittleEndian), U16At(raw, 56)))
    ensures NewFile(raw).Some? ==>
              var f := NewFile(raw).value;
              && f.cls == Elf64 && f.order == LittleEndian && f.typ == U16At(raw, 16) && f.machine == U16At(raw, 18)
              && f.sections == Sections([], [], None, None, None, false)
  {
    hide Word, ReadProgs, U64At, U16At, Get, Addressable, ReadProg;
    if |raw| >= 64 {
      MagicBytes(raw);
      U64Word(raw, 40);
      U64Word(raw, 32);
      U16Read(raw, 60);
      U16Read(raw, 54);
      U16Read(raw, 56);
      U16Read(raw, 16);
      U16Read(raw, 18);
    }
  }

  lemma MagicBytes(raw: seq<byte>)
    requires |raw| >= 7
    ensures raw[..4] == [0x7f, 0x45, 0x4c, 0x46] <==>
            raw[0] == 0x7f && raw[1] == 0x45 && raw[2] == 0x4c && raw[3] == 0x46
    ensures raw[4..7] == [2, 1, 1] <==> raw[4] == 2 && raw[5] == 1 && raw[6] == 1
  {
  }

  lemma U64Word(raw: seq<byte>, at: nat)
    requires at + 8 <= |raw|
    ensures Word(raw, at, 8) == U64At(raw, at, LittleEndian)
  {
    U64Read(raw, at, LittleEndian);
  }
}
