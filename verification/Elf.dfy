/** The part of an ELF file the checks look at, and a reader for the ELF64 little-endian
    header and program headers (System V gABI, chapter 4 "ELF Header", chapter 5
    "Program Header"). */
module Elf {
  import opened Bytes

  const ET_REL := 1
  const ET_EXEC := 2
  const ET_DYN := 3

  const EM_X86_64 := 62
  const EM_AARCH64 := 183

  const PT_LOAD := 1
  const PT_DYNAMIC := 2
  const PT_INTERP := 3
  const PT_GNU_STACK := 0x6474_e551
  const PT_GNU_RELRO := 0x6474_e552
  const PT_OHOS_RETGUARD := 0x6788_fc60

  const PF_X := 1
  const PF_W := 2
  const PF_R := 4

  const DT_NULL := 0
  const DT_NEEDED := 1
  const DT_STRTAB := 5
  const DT_SYMTAB := 6
  const DT_STRSZ := 10
  const DT_SYMENT := 11
  const DT_RPATH := 15
  const DT_TEXTREL := 22
  const DT_BIND_NOW := 24
  const DT_RUNPATH := 29
  const DT_FLAGS := 30
  const DT_FLAGS_1 := 0x6fff_fffb

  const DF_TEXTREL := 4
  const DF_BIND_NOW := 8
  const DF_1_NOW := 1
  const DF_1_PIE := 0x0800_0000

  const STT_NOTYPE := 0
  const STT_FUNC := 2

  datatype Class = Elf32 | Elf64

  datatype Prog = Prog(typ: u32, flags: u32, off: u64, vaddr: u64, filesz: u64, memsz: u64)

  datatype DynEntry = DynEntry(tag: u64, val: u64)

  datatype Sym = Sym(name: GoString, info: byte)

  /** What the section headers offer; every field is empty for a stripped file. `dynamic` is the whole section,
      its DT_NULL terminators included. `symbols` and `dynSymbols` leave out the null symbol at index 0 and are
      `None` when the lookup reports an error. `text` is `None` without that section, and holds `None` when the
      section cannot be read. */
  datatype Sections = Sections(
    dynamic: seq<DynEntry>,
    dynstr: seq<byte>,
    symbols: Option<seq<Sym>>,
    dynSymbols: Option<seq<Sym>>,
    text: Option<Option<seq<byte>>>,
    ohosRandomdata: bool)

  const NO_SECTIONS := Sections([], [], None, None, None, false)

  datatype ElfFile = ElfFile(
    cls: Class,
    order: ByteOrder,
    typ: u16,
    machine: u16,
    progs: seq<Prog>,
    sections: Sections)

  // ---- Reading a file at an offset --------------------------------------

  datatype ReadStatus = Full | Eof | Invalid

  /** The buffer after a read: bytes past the end of the file stay zero. */
  datatype Read = Read(data: seq<byte>, status: ReadStatus)

  function ReadAt(raw: seq<byte>, off: int, n: nat): (r: Read)
    ensures |r.data| == n
    ensures r.status.Full? ==> 0 <= off && (n == 0 || (off + n <= |raw| && r.data == raw[off..off + n]))
  {
    if off < 0 then Read(Zeros(n), Invalid)
    else if n == 0 then Read([], Full)
    else if off + n <= |raw| then Read(raw[off..off + n], Full)
    else if off < |raw| then Read(raw[off..] + Zeros(off + n - |raw|), Eof)
    else Read(Zeros(n), Eof)
  }

  /** Reading a whole segment through its section reader. */
  function ReadSegment(raw: seq<byte>, p: Prog): (r: Read)
    ensures |r.data| == p.filesz
  {
    if p.filesz == 0 then Read([], Eof) else ReadAt(raw, ToI64(p.off), p.filesz)
  }

  // ---- ELF64 little-endian headers --------------------------------------

  const EHDR_SIZE := 64
  const PHDR_SIZE := 56

  function Word(raw: seq<byte>, off: nat, width: nat): (v: nat)
    requires off + width <= |raw|
    ensures v < Pow256(width)
  {
    Get(LittleEndian, raw[off..off + width])
  }

  function ReadProg(raw: seq<byte>, at: nat): Prog
    requires at + PHDR_SIZE <= |raw|
  {
    Pow256Values();
    Prog(Word(raw, at, 4), Word(raw, at + 4, 4), Word(raw, at + 8, 8),
         Word(raw, at + 16, 8), Word(raw, at + 32, 8), Word(raw, at + 40, 8))
  }

  function ReadProgs(raw: seq<byte>, at: nat, count: nat): (ps: seq<Prog>)
    requires at + PHDR_SIZE * count <= |raw|
    ensures |ps| == count
    decreases count
  {
    if count == 0 then [] else [ReadProg(raw, at)] + ReadProgs(raw, at + PHDR_SIZE, count - 1)
  }

  /** Segment offsets and sizes that a file reader can address. */
  predicate Addressable(progs: seq<Prog>) {
    forall p :: p in progs ==> p.off < TWO_TO_63 && p.filesz < TWO_TO_63
  }

  /** Opens an ELF64 little-endian image without section headers. */
  function NewFile(raw: seq<byte>): Option<ElfFile> {
    if |raw| < EHDR_SIZE || raw[..4] != [0x7f, 0x45, 0x4c, 0x46] || raw[4..7] != [2, 1, 1] then None
    else
      var phoff := Word(raw, 32, 8);
      var phnum := Word(raw, 56, 2);
      if Word(raw, 40, 8) != 0 || Word(raw, 60, 2) != 0 then None
      else if Word(raw, 54, 2) != PHDR_SIZE || phoff + PHDR_SIZE * phnum > |raw| then None
      else
        var progs := ReadProgs(raw, phoff, phnum);
        Pow256Values();
        if Addressable(progs) then
          Some(ElfFile(Elf64, LittleEndian, Word(raw, 16, 2), Word(raw, 18, 2), progs, NO_SECTIONS))
        else None
  }
}
