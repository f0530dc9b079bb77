/** What the program-header reader promises about any file. */
module DynProperties {
  import opened Bytes
  import opened Elf
  import opened Dyn

  // ---- Dynamic entries ---------------------------------------------------

  /** An entry whose tag and value fit the class. */
  predicate Fits(e: DynEntry, cls: Class) {
    e.tag < Pow256(HalfEntry(cls)) && e.val < Pow256(HalfEntry(cls))
  }

  predicate Storable(es: seq<DynEntry>, cls: Class) {
    forall i :: 0 <= i < |es| ==> Fits(es[i], cls) && es[i].tag != DT_NULL
  }

  function EntryBytes(e: DynEntry, cls: Class, order: ByteOrder): (b: seq<byte>)
    ensures |b| == 2 * HalfEntry(cls)
  {
    Put(order, HalfEntry(cls), e.tag) + Put(order, HalfEntry(cls), e.val)
  }

  function EntriesBytes(es: seq<DynEntry>, cls: Class, order: ByteOrder): (b: seq<byte>)
    ensures |b| == 2 * HalfEntry(cls) * |es|
  {
    if es == [] then []
    else
      assert 2 * HalfEntry(cls) * |es| == 2 * HalfEntry(cls) + 2 * HalfEntry(cls) * (|es| - 1);
      EntryBytes(es[0], cls, order) + EntriesBytes(es[1..], cls, order)
  }

  lemma EntryRoundTrip(e: DynEntry, cls: Class, order: ByteOrder, tail: seq<byte>)
    requires Fits(e, cls)
    ensures EntryAt(EntryBytes(e, cls, order) + tail, 0, cls, order) == e
  {
    var h := HalfEntry(cls);
    var data := EntryBytes(e, cls, order) + tail;
    assert data[0..h] == Put(order, h, e.tag);
    assert data[h..2 * h] == Put(order, h, e.val);
    GetPut(order, h, e.tag);
    GetPut(order, h, e.val);
  }

  lemma {:induction false} EntriesAppend(es: seq<DynEntry>, e: DynEntry, cls: Class, order: ByteOrder)
    ensures EntriesBytes(es + [e], cls, order) == EntriesBytes(es, cls, order) + EntryBytes(e, cls, order)
  {
    if es == [] {
      assert (es + [e])[1..] == [];
      assert EntriesBytes([e], cls, order) == EntryBytes(e, cls, order) + [];
    } else {
      assert (es + [e])[1..] == es[1..] + [e];
      EntriesAppend(es[1..], e, cls, order);
    }
  }

  /** Serialised entries read back exactly, whatever follows the DT_NULL entry. */
  lemma {:induction false} EntriesRoundTrip(es: seq<DynEntry>, stop: DynEntry, junk: seq<byte>, cls: Class,
                                            order: ByteOrder)
    requires Storable(es, cls)
    requires stop.tag == DT_NULL && Fits(stop, cls)
    ensures DynEntries(EntriesBytes(es, cls, order) + EntryBytes(stop, cls, order) + junk, cls, order) == es
  {
    hide Get, Put, Pow256;
    var end := EntryBytes(stop, cls, order);
    var data := EntriesBytes(es, cls, order) + end + junk;
    if es == [] {
      assert data == end + junk;
      EntryRoundTrip(stop, cls, order, junk);
    } else {
      var rest := EntriesBytes(es[1..], cls, order) + end + junk;
      assert data == EntryBytes(es[0], cls, order) + rest;
      EntryRoundTrip(es[0], cls, order, rest);
      assert data[2 * HalfEntry(cls)..] == rest;
      EntriesRoundTrip(es[1..], stop, junk, cls, order);
    }
  }

  /** No returned entry is DT_NULL. */
  lemma {:induction false} EntriesNeverNull(data: seq<byte>, cls: Class, order: ByteOrder)
    ensures forall e :: e in DynEntries(data, cls, order) ==> e.tag != DT_NULL
    decreases |data|
  {
    if |data| >= 2 * HalfEntry(cls) {
      EntriesNeverNull(data[2 * HalfEntry(cls)..], cls, order);
    }
  }

  /** Bytes of an entry that was cut short never change the result. */
  lemma {:induction false} PartialEntryIgnored(data: seq<byte>, part: seq<byte>, cls: Class, order: ByteOrder)
    requires |data| % (2 * HalfEntry(cls)) == 0
    requires |part| < 2 * HalfEntry(cls)
    ensures DynEntries(data + part, cls, order) == DynEntries(data, cls, order)
    decreases |data|
  {
    hide EntryAt, HalfEntry;
    var w := 2 * HalfEntry(cls);
    if |data| > 0 {
      assert |data| >= w;
      FirstEntryOf(data, part, cls, order);
      DropFirst(data, part, w);
      PartialEntryIgnored(data[w..], part, cls, order);
    }
  }

  lemma DropFirst(data: seq<byte>, more: seq<byte>, w: nat)
    requires w <= |data|
    ensures (data + more)[w..] == data[w..] + more
  {
  }

  lemma FirstEntryOf(data: seq<byte>, more: seq<byte>, cls: Class, order: ByteOrder)
    requires |data| >= 2 * HalfEntry(cls)
    ensures EntryAt(data + more, 0, cls, order) == EntryAt(data, 0, cls, order)
  {
    hide Get, HalfEntry;
    var h := HalfEntry(cls);
    assert (data + more)[0..h] == data[0..h];
    assert (data + more)[h..2 * h] == data[h..2 * h];
  }

  /** The value found is that of the first entry with the tag. */
  lemma {:induction false} DynTagFirst(dyns: seq<DynEntry>, tag: u64, i: nat)
    requires i < |dyns| && dyns[i].tag == tag
    requires forall j :: 0 <= j < i ==> dyns[j].tag != tag
    ensures DynTag(dyns, tag) == Some(dyns[i].val)
  {
    if i > 0 {
      DynTagFirst(dyns[1..], tag, i - 1);
    }
  }

  lemma {:induction false} DynTagConcat(a: seq<DynEntry>, b: seq<DynEntry>, tag: u64)
    ensures DynTag(a + b, tag) == if DynTag(a, tag).Some? then DynTag(a, tag) else DynTag(b, tag)
  {
    if a == [] {
      assert a + b == b;
    } else {
      assert (a + b)[1..] == a[1..] + b;
      DynTagConcat(a[1..], b, tag);
    }
  }

  lemma {:induction false} StringsOfConcat(str: seq<byte>, a: seq<DynEntry>, b: seq<DynEntry>, tag: u64)
    ensures StringsOf(str, a + b, tag) == StringsOf(str, a, tag) + StringsOf(str, b, tag)
  {
    if a == [] {
      assert a + b == b;
    } else {
      assert (a + b)[1..] == a[1..] + b;
      StringsOfConcat(str, a[1..], b, tag);
    }
  }

  lemma {:induction false} NoStringsOf(str: seq<byte>, es: seq<DynEntry>, tag: u64)
    requires forall i :: 0 <= i < |es| ==> es[i].tag != tag
    ensures StringsOf(str, es, tag) == []
  {
    if es != [] {
      NoStringsOf(str, es[1..], tag);
    }
  }

  // ---- Address translation -----------------------------------------------

  /** The wrapping cover test is the integer one, except that a segment reaching 2^64 covers nothing. */
  lemma CoversExactly(p: Prog, vaddr: u64)
    ensures Covers(p, vaddr) <==> p.vaddr <= vaddr < p.vaddr + p.filesz < TWO_TO_64
  {
    var end := p.vaddr + p.filesz;
    if end >= TWO_TO_64 {
      assert end % TWO_TO_64 == end - TWO_TO_64;
    } else {
      assert end % TWO_TO_64 == end;
    }
  }

  /** A segment whose file range fits a signed 64-bit offset. */
  predicate InFileRange(p: Prog) {
    p.off + p.filesz < TWO_TO_63
  }

  /** The translated offset lies in the file range of the covering segment, at the same distance from its start. */
  lemma OffsetInSegment(progs: seq<Prog>, vaddr: u64)
    requires CoveringLoad(progs, vaddr).Some? && InFileRange(CoveringLoad(progs, vaddr).value)
    ensures var p := CoveringLoad(progs, vaddr).value;
            var off := VaddrToFileOffset(progs, vaddr);
            off == Some(p.off + (vaddr - p.vaddr)) && p.off <= off.value < p.off + p.filesz
  {
    var p := CoveringLoad(progs, vaddr).value;
    CoversExactly(p, vaddr);
    var sum := vaddr - p.vaddr + p.off;
    assert sum % TWO_TO_64 == sum;
  }

  predicate FileDisjoint(p: Prog, q: Prog) {
    p.off + p.filesz <= q.off || q.off + q.filesz <= p.off
  }

  /** The loadable segments lie in the file without overlap; other headers may overlap them. */
  predicate LoadsDisjoint(progs: seq<Prog>) {
    && (forall p :: p in progs && p.typ == PT_LOAD ==> InFileRange(p))
    && (forall i, j :: 0 <= i < j < |progs| && progs[i].typ == PT_LOAD && progs[j].typ == PT_LOAD ==>
          FileDisjoint(progs[i], progs[j]))
  }

  /** Distinct addresses never share a file offset when the loadable segments' file ranges are disjoint. */
  lemma OffsetInjective(progs: seq<Prog>, v: u64, w: u64)
    requires LoadsDisjoint(progs)
    requires VaddrToFileOffset(progs, v).Some?
    requires VaddrToFileOffset(progs, v) == VaddrToFileOffset(progs, w)
    ensures v == w
  {
    OffsetInSegment(progs, v);
    OffsetInSegment(progs, w);
    var p, q := CoveringLoad(progs, v).value, CoveringLoad(progs, w).value;
    var i :| 0 <= i < |progs| && progs[i] == p;
    var j :| 0 <= j < |progs| && progs[j] == q;
    assert !FileDisjoint(progs[i], progs[j]) && !FileDisjoint(progs[j], progs[i]);
    assert i == j;
  }

  /** Where the string table is, when its two entries and the address translation say so. */
  lemma StringsAt(progs: seq<Prog>, raw: seq<byte>, dyns: seq<DynEntry>, strtab: u64, off: nat, str: seq<byte>)
    requires DynTag(dyns, DT_STRTAB) == Some(strtab) && DynTag(dyns, DT_STRSZ) == Some(|str|)
    requires VaddrToFileOffset(progs, strtab) == Some(off)
    requires 0 < |str| && off + |str| <= |raw| && raw[off..off + |str|] == str
    ensures DynamicStrings(progs, raw, dyns) == if |str| <= MAX_STRSZ then Some(str) else None
  {
  }

  // ---- The symbol scan ---------------------------------------------------

  /** The limit is the room left in the segment the address translation picked, capped at
      2^24; the fallback size is never used for segments below 2^63. */
  lemma LimitIsSegmentRoom(progs: seq<Prog>, symtab: u64)
    requires CoveringLoad(progs, symtab).Some? && CoveringLoad(progs, symtab).value.filesz < TWO_TO_63
    ensures var p := CoveringLoad(progs, symtab).value;
            0 < p.vaddr + p.filesz - symtab &&
            ScanLimit(progs, symtab) == Min(p.vaddr + p.filesz - symtab, MAX_LIMIT)
  {
    var p := CoveringLoad(progs, symtab).value;
    CoversExactly(p, symtab);
    var room := p.vaddr + p.filesz - symtab;
    assert room % TWO_TO_64 == room;
  }

  /** Every record the scan asks for lies inside that segment's file range. */
  lemma ReadsInsideSegment(progs: seq<Prog>, symtab: u64, syment: u64, off: nat)
    requires CoveringLoad(progs, symtab).Some? && InFileRange(CoveringLoad(progs, symtab).value)
    requires 0 < syment && off + syment <= ScanLimit(progs, symtab)
    ensures var p := CoveringLoad(progs, symtab).value;
            var at := VaddrToFileOffset(progs, symtab).value;
            p.off <= at + off && at + off + Min(syment, SYM_BUF) <= p.off + p.filesz
  {
    OffsetInSegment(progs, symtab);
    LimitIsSegmentRoom(progs, symtab);
  }

  /** The byte at `at`, or zero past the end. */
  function ByteOrZero(b: seq<byte>, at: nat): byte {
    if at < |b| then b[at] else 0
  }

  /** A record exists exactly when its bytes lie in the file. The name offset is the first four of them,
      in the file's byte order; the info byte is the fifth of a 64-bit record and the thirteenth of a 32-bit one.
      Whatever a short entry does not reach counts as zero. */
  lemma RecordBytes(cls: Class, order: ByteOrder, raw: seq<byte>, t: SymTable, off: nat)
    requires t.syment > 0
    ensures var at, n := WrapI64(t.at + off), Min(t.syment, SYM_BUF);
            var rec := RecordAt(cls, order, raw, t, off);
            && (rec.Some? <==> 0 <= at && at + n <= |raw|)
            && (rec.Some? ==>
                  var entry := raw[at..at + n];
                  && rec.value.info == ByteOrZero(entry, if cls.Elf64? then 4 else 12)
                  && rec.value.nameOff == Get(order, [ByteOrZero(entry, 0), ByteOrZero(entry, 1), ByteOrZero(entry, 2),
                                                      ByteOrZero(entry, 3)]))
  {
    hide Get;
    var at, n := WrapI64(t.at + off), Min(t.syment, SYM_BUF);
    if 0 <= at && at + n <= |raw| {
      var entry := raw[at..at + n];
      var buf := entry + Zeros(SYM_BUF - n);
      assert buf[0..4] == [ByteOrZero(entry, 0), ByteOrZero(entry, 1), ByteOrZero(entry, 2), ByteOrZero(entry, 3)];
    }
  }

  /** Where the k-th record starts: k times the entry size. */
  function Offset(size: nat, k: nat): (off: nat)
  {
    if k == 0 then 0 else Offset(size, k - 1) + size
  }

  lemma {:induction false} OffsetIsProduct(size: nat, k: nat)
    ensures Offset(size, k) == k * size
  {
    if k > 0 {
      OffsetIsProduct(size, k - 1);
      assert k * size == (k - 1) * size + size;
    }
  }

  /** How many whole records of `size` bytes fit in `limit` bytes. */
  function Count(limit: nat, size: nat): (n: nat)
    requires size > 0
    ensures n <= limit
    decreases limit
  {
    if limit < size then 0 else 1 + Count(limit - size, size)
  }

  /** The count is the quotient: that many records fit, and one more does not. */
  lemma {:induction false} CountIsQuotient(limit: nat, size: nat)
    requires size > 0
    ensures Offset(size, Count(limit, size)) <= limit < Offset(size, Count(limit, size) + 1)
    ensures Count(limit, size) == limit / size
    decreases limit
  {
    if limit >= size {
      CountIsQuotient(limit - size, size);
    }
    var n := Count(limit, size);
    OffsetIsProduct(size, n);
    QuotientUnique(limit, size, n);
  }

  lemma QuotientUnique(limit: nat, size: nat, n: nat)
    requires n * size <= limit < n * size + size
    ensures limit / size == n
  {
    var d := limit / size;
    assert d * size <= limit < d * size + size;
    if d < n {
      ProductMonotone(d + 1, n, size);
    } else if n < d {
      ProductMonotone(n + 1, d, size);
    }
  }

  lemma ProductMonotone(a: nat, b: nat, size: nat)
    requires a <= b
    ensures a * size <= b * size
  {
  }

  /** Record k fits in `limit` iff k is below the count. */
  lemma {:induction false} CountExact(limit: nat, size: nat, k: nat)
    requires size > 0
    ensures k < Count(limit, size) <==> Offset(size, k) + size <= limit
    decreases k
  {
    if k > 0 {
      if limit >= size {
        CountExact(limit - size, size, k - 1);
      }
    }
  }

  /** The k-th record, when it can be read. */
  function Indexed(cls: Class, order: ByteOrder, raw: seq<byte>, t: SymTable, k: nat): Option<SymRecord> {
    RecordAt(cls, order, raw, t, Offset(t.syment, k))
  }

  /** `recs` are the records number k, k + 1, ..., count - 1. */
  ghost predicate AreIndexed(recs: seq<SymRecord>, cls: Class, order: ByteOrder, raw: seq<byte>, t: SymTable,
                             k: nat, count: nat)
  {
    |recs| == count - k && forall i: nat :: i < |recs| ==> Indexed(cls, order, raw, t, k + i) == Some(recs[i])
  }

  /** When no read fails, the scan reads exactly the records below the count. */
  lemma {:induction false} ScanIsIndexed(cls: Class, order: ByteOrder, raw: seq<byte>, t: SymTable, k: nat, count: nat)
    requires t.syment > 0 && k <= count == Count(t.limit, t.syment)
    requires forall i: nat :: k <= i < count ==> Indexed(cls, order, raw, t, i).Some?
    ensures AreIndexed(RecordsFrom(cls, order, raw, t, Offset(t.syment, k)), cls, order, raw, t, k, count)
    decreases count - k
  {
    hide RecordAt, AreIndexed;
    CountExact(t.limit, t.syment, k);
    NothingIndexed(cls, order, raw, t, count);
    if k < count {
      ScanIsIndexed(cls, order, raw, t, k + 1, count);
      var rest := RecordsFrom(cls, order, raw, t, Offset(t.syment, k + 1));
      IndexedCons(rest, cls, order, raw, t, k, count);
      assert Indexed(cls, order, raw, t, k).Some?;
    }
  }

  lemma NothingIndexed(cls: Class, order: ByteOrder, raw: seq<byte>, t: SymTable, count: nat)
    ensures AreIndexed([], cls, order, raw, t, count, count)
  {
  }

  lemma IndexedCons(rest: seq<SymRecord>, cls: Class, order: ByteOrder, raw: seq<byte>, t: SymTable, k: nat, count: nat)
    requires AreIndexed(rest, cls, order, raw, t, k + 1, count)
    requires Indexed(cls, order, raw, t, k).Some?
    ensures AreIndexed([Indexed(cls, order, raw, t, k).value] + rest, cls, order, raw, t, k, count)
  {
    var recs := [Indexed(cls, order, raw, t, k).value] + rest;
    forall i: nat | i < |recs|
      ensures Indexed(cls, order, raw, t, k + i) == Some(recs[i])
    {
      if i > 0 {
        assert recs[i] == rest[i - 1] && k + i == k + 1 + (i - 1);
      }
    }
  }

  lemma {:induction false} NamesOfConcat(a: seq<SymRecord>, b: seq<SymRecord>, str: seq<byte>)
    ensures NamesOf(a + b, str) == NamesOf(a, str) + NamesOf(b, str)
    decreases |b|
  {
    if b == [] {
      assert a + b == a;
    } else {
      var last := |b| - 1;
      assert a + b == (a + b[..last]) + [b[last]];
      NamesOfAppend(a + b[..last], b[last], str);
      NamesOfConcat(a, b[..last], str);
    }
  }

  /** A scan returns at most one name per record, and only non-empty ones. */
  lemma {:induction false} NamesOfBounded(recs: seq<SymRecord>, str: seq<byte>)
    ensures |NamesOf(recs, str)| <= |recs|
    ensures forall n :: n in NamesOf(recs, str) ==> n != "" && '\0' !in n
  {
    if recs != [] {
      NamesOfBounded(recs[..|recs| - 1], str);
      RecordNameNulFree(recs[|recs| - 1], str);
    }
  }

  /** The record names the function `n`. */
  predicate NamesFunction(rec: SymRecord, str: seq<byte>, n: GoString) {
    rec.info % 16 == STT_FUNC && n != "" && CstrAt(str, rec.nameOff) == Some(n)
  }

  ghost predicate SomeNames(recs: seq<SymRecord>, str: seq<byte>, n: GoString) {
    exists i :: 0 <= i < |recs| && NamesFunction(recs[i], str, n)
  }

  /** A name is listed exactly when some record names that function. */
  lemma {:induction false} NamesOfExact(recs: seq<SymRecord>, str: seq<byte>, n: GoString)
    ensures n in NamesOf(recs, str) <==> SomeNames(recs, str, n)
  {
    if recs != [] {
      var before, last := recs[..|recs| - 1], recs[|recs| - 1];
      NamesOfExact(before, str, n);
      hide CstrAt;
      assert n in RecordName(last, str) <==> NamesFunction(last, str, n);
      assert recs == before + [last];
    }
  }

  lemma RecordNameNulFree(rec: SymRecord, str: seq<byte>)
    ensures forall n :: n in RecordName(rec, str) ==> '\0' !in n
  {
    if rec.nameOff < |str| {
      var b := str[rec.nameOff..];
      assert forall k :: 0 <= k < IndexOfZero(b) ==> str[rec.nameOff..rec.nameOff + IndexOfZero(b)][k] == b[k];
    }
  }

  /** The segment holding the symbol table lies inside the file. */
  predicate TableInFile(f: ElfFile, raw: seq<byte>) {
    match DynTag(Dynamic(f, raw), DT_SYMTAB)
    case None => false
    case Some(symtab) =>
      match CoveringLoad(f.progs, symtab)
      case None => false
      case Some(p) => InFileRange(p) && p.off + p.filesz <= |raw|
  }

  lemma TableOrigin(f: ElfFile, raw: seq<byte>, t: SymTable) returns (symtab: u64)
    requires FindSymTable(f, raw) == Some(t)
    ensures DynTag(Dynamic(f, raw), DT_SYMTAB) == Some(symtab)
    ensures CoveringLoad(f.progs, symtab).Some?
    ensures VaddrToFileOffset(f.progs, symtab) == Some(t.at)
    ensures t.limit == ScanLimit(f.progs, symtab)
  {
    symtab := DynTag(Dynamic(f, raw), DT_SYMTAB).value;
  }

  /** Record number `k` exists and names the function `n`. */
  predicate IndexedNames(cls: Class, order: ByteOrder, raw: seq<byte>, t: SymTable, k: nat, n: GoString) {
    var rec := Indexed(cls, order, raw, t, k);
    rec.Some? && NamesFunction(rec.value, t.str, n)
  }

  /** When the segment holding the table lies inside the file, no read fails: for either class and byte order
      the scan reads the first limit/syment records and returns their function names in order; a name is
      returned exactly when one of those records is a function symbol of that resolvable, non-empty name. */
  lemma ScanRefinesIndexSpec(f: ElfFile, raw: seq<byte>, t: SymTable)
    requires Scannable(f, raw) && FindSymTable(f, raw) == Some(t)
    requires TableInFile(f, raw)
    ensures t.syment > 0 && Count(t.limit, t.syment) == t.limit / t.syment
    ensures var count := Count(t.limit, t.syment);
            && AreIndexed(RecordsFrom(f.cls, f.order, raw, t, 0), f.cls, f.order, raw, t, 0, count)
            && |SymbolNamesPH(f, raw)| <= count <= MAX_LIMIT
            && SymbolNamesPH(f, raw) == NamesOf(RecordsFrom(f.cls, f.order, raw, t, 0), t.str)
    ensures var count := Count(t.limit, t.syment);
            forall n :: n in SymbolNamesPH(f, raw) <==>
                          exists k: nat :: k < count && IndexedNames(f.cls, f.order, raw, t, k, n)
  {
    hide IndexedNames, AreIndexed, RecordsFrom, NamesOf, RecordAt, TableInFile;
    var symtab := TableOrigin(f, raw, t);
    var count := Count(t.limit, t.syment);
    TableReadable(f, raw, t, symtab);
    CountIsQuotient(t.limit, t.syment);
    ScanIsIndexed(f.cls, f.order, raw, t, 0, count);
    var recs := RecordsFrom(f.cls, f.order, raw, t, 0);
    NamesOfBounded(recs, t.str);
    RecordCount(recs, f.cls, f.order, raw, t, count);
    forall n
      ensures n in NamesOf(recs, t.str) <==> exists k: nat :: k < count && IndexedNames(f.cls, f.order, raw, t, k, n)
    {
      NamesOfExact(recs, t.str, n);
      SomeNamesIndexed(recs, f.cls, f.order, raw, t, count, n);
    }
  }

  lemma RecordCount(recs: seq<SymRecord>, cls: Class, order: ByteOrder, raw: seq<byte>, t: SymTable, count: nat)
    requires AreIndexed(recs, cls, order, raw, t, 0, count)
    ensures |recs| == count
  {
  }

  lemma SomeNamesIndexed(recs: seq<SymRecord>, cls: Class, order: ByteOrder, raw: seq<byte>, t: SymTable, count: nat,
                         n: GoString)
    requires AreIndexed(recs, cls, order, raw, t, 0, count)
    ensures SomeNames(recs, t.str, n) <==> exists k: nat :: k < count && IndexedNames(cls, order, raw, t, k, n)
  {
    hide NamesFunction, Indexed;
    forall k: nat | k < count
      ensures Indexed(cls, order, raw, t, k) == Some(recs[k])
    {
      assert Indexed(cls, order, raw, t, 0 + k) == Some(recs[k]);
    }
    if i :| 0 <= i < |recs| && NamesFunction(recs[i], t.str, n) {
      assert IndexedNames(cls, order, raw, t, i, n);
    }
  }

  lemma TableReadable(f: ElfFile, raw: seq<byte>, t: SymTable, symtab: u64)
    requires t.syment > 0 && TableInFile(f, raw)
    requires DynTag(Dynamic(f, raw), DT_SYMTAB) == Some(symtab)
    requires VaddrToFileOffset(f.progs, symtab) == Some(t.at) && t.limit == ScanLimit(f.progs, symtab)
    ensures forall i: nat :: i < Count(t.limit, t.syment) ==> Indexed(f.cls, f.order, raw, t, i).Some?
  {
    forall i: nat | i < Count(t.limit, t.syment)
      ensures Indexed(f.cls, f.order, raw, t, i).Some?
    {
      CountExact(t.limit, t.syment, i);
      RecordReadable(f.progs, symtab, raw, t, Offset(t.syment, i), f.cls, f.order);
    }
  }

  lemma RecordReadable(progs: seq<Prog>, symtab: u64, raw: seq<byte>, t: SymTable, off: nat,
                       cls: Class, order: ByteOrder)
    requires CoveringLoad(progs, symtab).Some?
    requires var p := CoveringLoad(progs, symtab).value;
             InFileRange(p) && p.off + p.filesz <= |raw|
    requires VaddrToFileOffset(progs, symtab) == Some(t.at)
    requires 0 < t.syment && off + t.syment <= ScanLimit(progs, symtab)
    ensures RecordAt(cls, order, raw, t, off).Some?
  {
    ReadsInsideSegment(progs, symtab, t.syment, off);
  }

  // ---- All symbol names --------------------------------------------------

  predicate Distinct<T(==)>(s: seq<T>) {
    forall i, j :: 0 <= i < j < |s| ==> s[i] != s[j]
  }

  /** The place where `n` occurs first. */
  function FirstIndex<T(==)>(names: seq<T>, n: T): (i: nat)
    requires n in names
    ensures i < |names| && names[i] == n
    ensures forall j :: 0 <= j < i ==> names[j] != n
  {
    if names[0] == n then 0 else 1 + FirstIndex(names[1..], n)
  }

  /** The collected names are exactly the non-empty ones, without repetition. */
  lemma {:induction false} FirstOccurrencesSet(names: seq<GoString>)
    ensures Distinct(FirstOccurrences(names))
    ensures forall n: GoString :: n in FirstOccurrences(names) <==> n in names && n != ""
  {
    if names != [] {
      var before := names[..|names| - 1];
      FirstOccurrencesSet(before);
      assert forall n: GoString :: n in names <==> n in before || n == names[|names| - 1];
    }
  }

  predicate InFirstOrder(names: seq<GoString>, out: seq<GoString>)
    requires forall n :: n in out ==> n in names
  {
    forall i, j :: 0 <= i < j < |out| ==> FirstIndex(names, out[i]) < FirstIndex(names, out[j])
  }

  /** They are listed in order of first occurrence. */
  lemma {:induction false} FirstOccurrencesOrder(names: seq<GoString>)
    ensures forall n :: n in FirstOccurrences(names) ==> n in names
    ensures InFirstOrder(names, FirstOccurrences(names))
  {
    FirstOccurrencesSet(names);
    if names != [] {
      var before := names[..|names| - 1];
      var last := names[|names| - 1];
      assert names == before + [last];
      FirstOccurrencesSet(before);
      FirstOccurrencesOrder(before);
      var prev, out := FirstOccurrences(before), FirstOccurrences(names);
      forall i, j | 0 <= i < j < |out|
        ensures FirstIndex(names, out[i]) < FirstIndex(names, out[j])
      {
        assert out[i] == prev[i];
        FirstIndexPrefix(before, last, prev[i]);
        if j < |prev| {
          FirstIndexPrefix(before, last, prev[j]);
        }
      }
    }
  }

  lemma FirstIndexPrefix<T>(before: seq<T>, last: T, n: T)
    requires n in before
    ensures FirstIndex(before + [last], n) == FirstIndex(before, n)
  {
    var all := before + [last];
    assert all[FirstIndex(before, n)] == n;
    assert forall k :: 0 <= k < |before| ==> all[k] == before[k];
  }

  /** Every name a file advertises through any of its three sources is collected, once. */
  lemma AllNamesCollected(f: ElfFile, raw: seq<byte>)
    requires Scannable(f, raw)
    ensures var out := FirstOccurrences(AdvertisedNames(f, raw));
            && Distinct(out)
            && forall n: GoString :: n in out <==>
                 n != "" && (n in NamesOfSyms(f.sections.symbols) || n in NamesOfSyms(f.sections.dynSymbols) ||
                             n in SymbolNamesPH(f, raw))
  {
    FirstOccurrencesSet(AdvertisedNames(f, raw));
  }
}
