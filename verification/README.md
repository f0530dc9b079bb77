# A verified model of secCompileCheck

secCompileCheck (`scc`) reads ELF binaries and reports which hardening features they carry. This
project models its core in Dafny and proves what the pieces promise each other:

* **The generator** (`internal/elfgen/elfgen.go`). `ElfBuild.Build` fills byte buffers in place, as the
  source does: it computes counts ahead, places regions at multiples of eight, patches dynamic entries and
  serialises headers. It is proved against `ElfGen.Image`, the image written region by region.
* **The reader** (`internal/checksec/dyn.go`). `Dyn` recovers dynamic entries, strings and symbols from the
  program headers alone, for both ELF classes and both byte orders. `DynProperties` states what it promises
  about any file; `ImageReading`, `SymbolReading`, `SymbolRoundTrip` and `PathReading` state what it gives on
  a generated image. `Elf.NewFile` is a small ELF64 little-endian header reader after the System V gABI
  (chapter 4 "ELF Header", chapter 5 "Program Header").
* **The detectors** (`relro.go`, `bindnow.go`, `nx.go`, `pie.go`, `pic.go`, `ohos_retguard.go`,
  `pac_cfi.go`, `canary.go`, `libc.go`, `rpath.go`, `fortify.go`). Each loop is a method proved against a
  verdict function. `Verdicts` and `ImageReport` prove that the report on a generated image is what the
  fields of its layout say, key by key, and derive both exit codes. `SectionAgreement` (entries, strings, libc),
  `StrippedSymbols` (canary, FORTIFY) and `StrippedReport` compare a file with and without its section
  headers.
* **The report** (`report.go`, `compliance.go`, `cmd/scc/main.go`). `Report.CheckTable` is the map that the
  source rewrites in place. `Compliance` compares the two exit-code decisions.
* **The definitions themselves.** `ReaderLaws`, `ImageLaws`, `TableLaws`, `DetectorLaws`, `PathLaws`, `FortifyLaws`,
  `ComplianceLaws` and `CommandLaws` say what each definition means in numbers, bytes, indices and literal
  texts, without naming it: which byte is the highest, where a header points, which entries and names decide a
  verdict and which text is shown.
* **The command line** (`cmd/scc/main.go`). `CommandLine` compares `reorderArgs` followed by Go's flag
  parser with a full interleaved scan.

## Results that are not plain equalities

Several promised properties fail on some inputs. Each is stated as an if-and-only-if, with the condition
the caller can check beforehand.

* The symbol round trip. The dynamic section does not record the number of symbols, so the scan runs on into
  the string table and may misread its bytes as symbols. `SymbolRoundTrip.SymbolRoundTripExact` says exactly
  when the function names come back; `SymbolRoundTrip.StrayLayoutFails` gives a layout with an empty object
  symbol name where an extra name appears; `SymbolRoundTrip.SymbolRoundTrip` shows that NUL-free non-empty
  names in a table of at most 65536 bytes are always safe.
* The path round trip. Leading empty entries vanish in the join, and DT_STRTAB is emitted only when there
  are symbols, so a recorded path is lost without them (`PathReading.RpathRoundTripExact`,
  `Verdicts.RpathOfImage`; failing layouts in `PathReading.LeadingEmptyLost` and
  `PathReading.PathWithoutSymbolsLost`).
* Argument rewriting (`CommandLine.ReorderExact`). A value flag left last takes the first positional
  (`CommandLine.DanglingTakesPositional`), and an acting `--` is dropped, so a later token that looks like a
  flag is no longer protected (`CommandLine.TerminatorDropped`).
* Strings with and without section headers. The section view lists only strings terminated inside the table
  (`SectionAgreement.StringsSurviveStripping`; failing files in `SectionAgreement.StrippingAddsString`).
* The libc decision with and without section headers. It changes when only an unterminated string names the
  libc (`SectionAgreement.LibcSurvivesStripping`; a failing file in `SectionAgreement.StrippingRevealsLibc`).
* Symbols with and without section headers. The section view lists symbols of every type, the program-header
  scan only functions (`StrippedSymbols.CanarySurvivesStripping`,
  `StrippedSymbols.FortifiedSurvivesStripping`, `StrippedSymbols.UnprotectedSurvivesStripping`; failing files
  in `StrippedExamples.ObjectCanaryLost`, `StrippedExamples.UntypedFortifiedLost` and
  `StrippedExamples.ObjectMemcpyLost`).
* Retguard, PAC CFI and the whole report with and without section headers
  (`StrippedReport.RetguardSurvivesStripping`, `StrippedReport.PacSurvivesStripping`,
  `StrippedReport.ReportSurvivesStripping`; failing files in `StrippedReport.RetguardSectionLost`,
  `StrippedReport.CodeOutsideText` and `StrippedReport.ReportChanges`).
* The two gates (`Compliance.GatesAgreeExactly`). An executable with text relocations fails the normal exit
  code but passes the position-independence rule (`ImageReport.ExitOfImage`,
  `ImageReport.ComplianceOfImage`; a failing layout in `ImageReport.GatesDiffer`).

## Where code and documentation disagree

The model follows the code.

* The comment on `Layout.Pie` (`internal/elfgen/elfgen.go:19`) mentions DF_1_PIE; `Build` writes that flag
  only for `Flags1Pie`.
* The usage text (`cmd/scc/main.go:60-61`) and `README.md:86` list fewer failing checks than `failKeys`
  (`cmd/scc/main.go:176`), which also has `bind_now` (and `pic`, missing from the usage text).

## Model

| member | source | states |
|---|---|---|
| Bytes.LeRoundTrip | internal/elfgen/elfgen.go:44-46 | Writing a number little-endian and reading it back gives the number, for every width it fits. |
| Bytes.GetPut | internal/checksec/dyn.go:43-61 | The same for either byte order. |
| Bytes.UntilNulWhole | internal/checksec/dyn.go:131-141 | Cutting a string at its first NUL loses nothing exactly when it has none. |
| Dyn.ParseDynEntries | internal/checksec/dyn.go:41-63 | The loop, for either class and byte order, returns the entries up to the first DT_NULL or the last whole entry. |
| Dyn.ParsePTDynamic | internal/checksec/dyn.go:26-39 | The loop concatenates the entries of every readable PT_DYNAMIC segment in header order. |
| Dyn.DynTag | internal/checksec/dyn.go:67-74 | A value is found exactly when some entry carries the tag, and it belongs to such an entry. |
| Dyn.CoveringLoad | internal/checksec/dyn.go:78-88 | The chosen segment is a PT_LOAD covering the address; none is chosen only when none covers it. |
| Dyn.DynStringPH | internal/checksec/dyn.go:112-129 | The loop returns the strings of all entries with the tag, in order, or nothing without a string table. |
| Dyn.PhdrSymbolNames | internal/checksec/dyn.go:151-221 | The method returns the names of the records that the specified scan reads from the table located through DT_SYMTAB, DT_STRTAB and DT_SYMENT. |
| Dyn.ScanSymbols | internal/checksec/dyn.go:194-220 | The scan loop, whose sums are wrapping int64 sums, ends and yields the names of exactly the records that the unbounded arithmetic reads before the limit or the first failed read. |
| Dyn.ScanLimit | internal/checksec/dyn.go:175-192 | The size bound is positive and at most 2^24 for every header list. |
| Dyn.SegmentLimit | internal/checksec/dyn.go:175-192 | The limit loop finds the room left in the first covering PT_LOAD, with the fallback and the cap. |
| Dyn.AllSymbolNames | internal/checksec/dyn.go:226-251 | The three sources merged through the seen map give the first occurrences of the non-empty names. |
| DynProperties.EntryRoundTrip | internal/checksec/dyn.go:44-59 | One serialised entry reads back, whatever follows it. |
| DynProperties.EntriesRoundTrip | internal/checksec/dyn.go:41-63 | For either class and byte order, non-null entries followed by a DT_NULL entry and arbitrary bytes read back exactly. |
| DynProperties.EntriesNeverNull | internal/checksec/dyn.go:47-58 | No returned entry is DT_NULL, for any bytes. |
| DynProperties.PartialEntryIgnored | internal/checksec/dyn.go:24-25 | Bytes of a truncated trailing entry never change the result. |
| DynProperties.DynTagFirst | internal/checksec/dyn.go:65-74 | The value found is that of the first entry with the tag. |
| DynProperties.CoversExactly | internal/checksec/dyn.go:83 | The wrapping 64-bit cover test is the integer one, except that a segment reaching 2^64 covers nothing. |
| DynProperties.OffsetInSegment | internal/checksec/dyn.go:83-85 | The translated offset lies in the file range of the covering segment, as far from its start as the address is. |
| DynProperties.OffsetInjective | internal/checksec/dyn.go:76-88 | Two addresses share a file offset only if equal, when the file ranges of the PT_LOAD segments are disjoint; other headers may overlap them. |
| DynProperties.LimitIsSegmentRoom | internal/checksec/dyn.go:175-192 | The limit is the room left in the segment that the address translation picked, capped at 2^24; the fallback is not used. |
| DynProperties.ReadsInsideSegment | internal/checksec/dyn.go:194-203 | Every record that the scan asks for lies inside that segment's file range. |
| DynProperties.RecordBytes | internal/checksec/dyn.go:196-212 | A record exists exactly when its bytes lie in the file; its first four bytes are the name offset, the fifth (64-bit) or thirteenth (32-bit) the info byte, and what a short entry does not reach counts as zero. |
| DynProperties.OffsetIsProduct | internal/checksec/dyn.go:195 | Record k is read at k times the entry size. |
| DynProperties.CountIsQuotient | internal/checksec/dyn.go:195 | The number of whole records under the limit is limit/syment: that many fit and one more does not. |
| DynProperties.CountExact | internal/checksec/dyn.go:195 | Record k fits under the limit exactly when k is below that number. |
| DynProperties.ScanIsIndexed | internal/checksec/dyn.go:194-220 | When no read fails, the records scanned are number 0, 1, 2, ... below the count. |
| DynProperties.ScanRefinesIndexSpec | internal/checksec/dyn.go:148-221 | With the table's segment inside the file, for either class and byte order, the scan reads records number 0 up to limit/syment and returns their names in order; a name is returned exactly when one of those records is a function symbol of that resolvable, non-empty name. |
| DynProperties.NamesOfBounded | internal/checksec/dyn.go:213-218 | A scan yields at most one name per record, and only non-empty, NUL-free ones. |
| DynProperties.NamesOfExact | internal/checksec/dyn.go:213-218 | A name is listed exactly when some record is a function symbol of that resolvable, non-empty name. |
| DynProperties.FirstOccurrencesSet | internal/checksec/dyn.go:229-234 | The collected names are exactly the non-empty ones, without repetition. |
| DynProperties.FirstOccurrencesOrder | internal/checksec/dyn.go:229-234 | They stand in order of first occurrence. |
| DynProperties.AllNamesCollected | internal/checksec/dyn.go:223-251 | A name is collected exactly when one of the three sources lists it and it is not empty; each once. |
| ElfGen.TemplateMatchesTable | internal/elfgen/elfgen.go:260-280 | Patching keeps the number and the tags of the entries; there are entries exactly when a dynamic section was announced. |
| ElfGen.CountsSound | internal/elfgen/elfgen.go:120-182 | The header count equals the number of headers written; the dynamic section exists exactly when it has entries and its length is 16 per entry with the terminator. |
| ElfGen.LayoutSound | internal/elfgen/elfgen.go:189-212 | The regions follow each other without overlap and end inside the image. |
| ElfGen.LayoutAligned | internal/elfgen/elfgen.go:189-209 | Every region starts at a multiple of eight. |
| ElfGen.ImageHolds | internal/elfgen/elfgen.go:242-333 | Each region of the image holds what was meant for it: no write clobbers another region. |
| ElfBuild.AddSymbols | internal/elfgen/elfgen.go:73-79 | The loop packs the names after those already placed and records one slot for each. |
| ElfBuild.JoinEntries | internal/elfgen/elfgen.go:85-98 | The loop leaves the colon-joined path, where an empty prefix gets no colon. |
| ElfBuild.BuildStrings | internal/elfgen/elfgen.go:58-113 | String table, symbol records and the optional offsets are those of the layout. |
| ElfBuild.CountPhdrs | internal/elfgen/elfgen.go:120-138 | The branches count one header for each segment the layout asks for. |
| ElfBuild.CollectEntries | internal/elfgen/elfgen.go:144-180 | The appended entries are the unpatched table with its terminator, or nothing. |
| ElfBuild.CollectFlags | internal/elfgen/elfgen.go:159-177 | The flag entries in order, DT_FLAGS only when a bit is set. |
| ElfBuild.Place | internal/elfgen/elfgen.go:189-211 | The running offset puts each region after the previous one, rounded up to eight. |
| ElfBuild.WriteEhdr | internal/elfgen/elfgen.go:214-240 | The zeroed buffer starts with the ELF header and is still zero after it. |
| ElfBuild.WriteSyms | internal/elfgen/elfgen.go:244-250 | The loop fills the table with the 24-byte records in order. |
| ElfBuild.WriteEntry | internal/elfgen/elfgen.go:255-259 | One entry is written behind the previous ones and the position advances by one. |
| ElfBuild.WriteDynamic | internal/elfgen/elfgen.go:252-280 | The patch loop writes all entries; its position ends exactly at the end of the section. |
| ElfBuild.WritePh | internal/elfgen/elfgen.go:297-308 | One header is written behind the previous ones and the position advances by one. |
| ElfBuild.WritePhdrs | internal/elfgen/elfgen.go:295-332 | The headers are those of the layout in order; as many are written as were counted. |
| ElfBuild.CopySections | internal/elfgen/elfgen.go:282-291 | The contents land behind the headers, each padded with zeros, leaving the header area untouched. |
| ElfBuild.FinishImage | internal/elfgen/elfgen.go:282-333 | Copying the program headers last overwrites only their own zeroed area. |
| ElfBuild.Build | internal/elfgen/elfgen.go:55-337 | The buffer that is returned is the image, byte for byte, for every layout. |
| ImageReading.HeaderRoundTrip | internal/elfgen/elfgen.go:214-333 | Opening the image gives back the type, the machine and every segment of the layout. |
| ImageReading.DynamicRoundTrip | internal/elfgen/elfgen.go:252-280 | Parsing the image's PT_DYNAMIC gives back the written entries. |
| ImageReading.AddressRoundTrip | internal/elfgen/elfgen.go:253 | Address translation inverts the address assignment at every offset of the image. |
| ImageReading.AddressesInjective | internal/checksec/dyn.go:76-88 | On every image two addresses share a file offset only if equal, whatever other segments it has. |
| SymbolReading.SlotReadsName | internal/checksec/dyn.go:131-141 | A slot reads back as its name up to a NUL inside the name. |
| SymbolReading.SlotHolds | internal/elfgen/elfgen.go:63-68 | The recorded offset of a string finds it in every table that extends the packed strings. |
| SymbolReading.VisibleWhole | internal/checksec/dyn.go:216-218 | No name is lost or cut exactly when all are non-empty and NUL-free. |
| SymbolReading.SlotsName | internal/elfgen/elfgen.go:73-79 | The function records name what was stored; object records contribute nothing. |
| SymbolReading.StringsRead | internal/checksec/dyn.go:92-110 | The string table of an image is found whole exactly when there are symbols and it has at most 2^24 bytes. |
| SymbolReading.ScanDecodes | internal/checksec/dyn.go:194-212 | With 24-byte entries the scan decodes the consecutive records of the table's bytes. |
| SymbolReading.RecordsUnderLimit | internal/checksec/dyn.go:188-195 | What lies under the limit: the written records, at most 699050 of them, then the string table read as records. |
| SymbolReading.SymbolNamesExact | internal/checksec/dyn.go:148-221 | The names found in an image are the visible function names under the limit followed by the names misread from the string table. |
| SymbolRoundTrip.StraysExact | internal/checksec/dyn.go:194-219 | Misread bytes yield no name exactly when no 24-byte window reads as a named function. |
| SymbolRoundTrip.SymbolRoundTripExact | internal/checksec/dyn.go:148-221 | The layout's function names come back, in order and without additions, if and only if the stated condition on the layout holds. |
| SymbolRoundTrip.ShortTableHarmless | internal/checksec/dyn.go:207-216 | In a table of at most 65536 bytes without adjacent zeros every misread name offset lies outside the table. |
| SymbolRoundTrip.PlainSurvives | internal/elfgen/elfgen.go:60-113 | NUL-free non-empty names and NUL-free paths in a table of at most 65536 bytes meet the exact condition. |
| SymbolRoundTrip.SymbolRoundTrip | internal/checksec/dyn.go:148-221 | Such a layout's function names come back exactly. |
| SymbolRoundTrip.StrayLayoutFails | internal/elfgen/elfgen.go:73-79 | Without the condition the round trip fails: an empty object name makes an extra name appear. |
| Strings.JoinSplit | internal/checksec/rpath.go:57-64 | Joining inverts splitting at colons, for every string. |
| Strings.SplitJoinExact | internal/checksec/rpath.go:57-64 | Splitting inverts joining exactly on non-empty lists of colon-free pieces. |
| PathReading.JoinedPathExact | internal/elfgen/elfgen.go:85-98 | The join is the plain colon join of the entries from the first non-empty one on. |
| PathReading.PathRoundTripExact | internal/elfgen/elfgen.go:85-108 | A joined path splits back into its entries if and only if they are colon-free, NUL-free and start with a non-empty one. |
| PathReading.PathPresent | internal/elfgen/elfgen.go:103-108 | A path gets a slot exactly when some entry is non-empty. |
| PathReading.SlotsHold | internal/elfgen/elfgen.go:80-108 | The slots of libc.so.6, RPATH and RUNPATH hold them up to the first NUL. |
| PathReading.StringRoundTrip | internal/checksec/dyn.go:112-129 | On an image DT_NEEDED, DT_RPATH and DT_RUNPATH read back what was stored, or nothing without a found table. |
| PathReading.RpathRoundTripExact | internal/checksec/dyn.go:112-129 | Exactly one string is read and splits into the layout's entries if and only if the table is found and the entries survive joining. |
| PathReading.LeadingEmptyLost | internal/elfgen/elfgen.go:85-91 | A layout whose leading empty RPATH entry is gone from what is read back. |
| PathReading.PathWithoutSymbolsLost | internal/elfgen/elfgen.go:146-155 | A layout without symbols whose RPATH is not found at all. |
| Detectors.Relro | internal/checksec/relro.go:15-36 | The loop and the switch give full, partial or no RELRO by segment and immediate binding. |
| Detectors.Nx | internal/checksec/nx.go:11-33 | The loop judges the first PT_GNU_STACK among the first 10001 headers; beyond that it errs. |
| Detectors.Pie | internal/checksec/pie.go:10-48 | The assigned flags and the interpreter search give the classification, sections before PT_DYNAMIC. |
| Detectors.FindCode | internal/checksec/pac_cfi.go:39 | The search finds the instruction exactly when it stands somewhere in the bytes. |
| Detectors.PacCfi | internal/checksec/pac_cfi.go:19-44 | Readable .text decides alone; else some executable PT_LOAD that reads whole must contain the instruction. |
| Detectors.Canary | internal/checksec/canary.go:51-61 | The loop finds a canary exactly when a collected name has one of the four prefixes. |
| Detectors.CanaryOfNames | internal/checksec/canary.go:51-61 | Dropping repetitions and empty names never changes the verdict. |
| Detectors.ResolveLibcFlag | internal/checksec/libc.go:23-50 | The answer is "none" exactly without PT_DYNAMIC or without a libc among the needed libraries of the preferred view. |
| SectionAgreement.VerdictsSurviveStripping | internal/checksec/bindnow.go:22-51 | With the same entries in both views, up to the terminators that only the section lists, BIND_NOW, RELRO, PIE and PIC give the same answer without section headers. |
| SectionAgreement.SectionStringsCount | internal/checksec/rpath.go:75-80 | The section view lists the terminated strings among those the program headers give, all of them exactly when all are terminated. |
| SectionAgreement.StringsSurviveStripping | internal/checksec/rpath.go:75-80 | The strings of a tag are the same with and without section headers if and only if none of them, or (for a tag other than DT_NULL) all of them, are terminated in the table. |
| SectionAgreement.ZeroEndTerminates | internal/checksec/dyn.go:136-139 | A table ending in a zero byte terminates every string. |
| SectionAgreement.StrippingAddsString | internal/checksec/rpath.go:75-80 | Files whose views agree on entries and table, yet list one more string without section headers. |
| SectionAgreement.LibcSurvivesStripping | internal/checksec/libc.go:34-50 | The libc decision survives stripping if and only if it is not the case that only unterminated strings name a libc while a terminated one names another library. |
| SectionAgreement.StrippingRevealsLibc | internal/checksec/libc.go:34-50 | A file that needs no libc by its section headers and does without them. |
| StrippedSymbols.CanarySurvivesStripping | internal/checksec/canary.go:48-61 | With one symbol table behind both views, the verdict survives if and only if, when a listed symbol of any type has a canary name, some record of the table is a function with one. |
| StrippedSymbols.CanaryFunctionsSurvive | README.md:24 | So it survives whenever canary symbols are functions and there is no static symbol table. |
| StrippedSymbols.FortifyShrinks | internal/checksec/fortify.go:84-124 | Stripping never adds to the fortified or the unprotected count, for any file. |
| StrippedSymbols.FortifiedSurvivesStripping | internal/checksec/fortify.go:84-124 | The fortified list survives if and only if each fortified name of an untyped dynamic symbol and of a static symbol is also that of a function record. |
| StrippedSymbols.UnprotectedSurvivesStripping | internal/checksec/fortify.go:194-227 | The unprotected functions survive if and only if each checkable name of a listed symbol is also that of a function record. |
| StrippedSymbols.ItoaInjective | internal/checksec/fortify.go:232-235 | Equal shown counts are equal counts. |
| StrippedSymbols.FortifySurvivesStripping | internal/checksec/fortify.go:152-243 | The FORTIFY result of the report survives if and only if the libc decision does and, without a libc, there was no static symbol table, or, with one, all fortified and checkable names are also those of function records. |
| StrippedExamples.ObjectCanaryLost | internal/checksec/dyn.go:213-215 | A file whose views share one symbol table with an object canary: found with section headers only. |
| StrippedExamples.ObjectMemcpyLost | internal/checksec/fortify.go:194-204 | The same with an object memcpy, which counts as unprotected with section headers only. |
| StrippedExamples.UntypedFortifiedLost | internal/checksec/fortify.go:95-105 | The same with an untyped `__memcpy_chk`, which counts as fortified with section headers only. |
| StrippedReport.RetguardSurvivesStripping | internal/checksec/ohos_retguard.go:14-30 | The retguard verdict survives if and only if the machine is not AArch64, the section is absent or the segment is present. |
| StrippedReport.PacSurvivesStripping | internal/checksec/pac_cfi.go:13-44 | With a readable .text loaded as code, a PAC verdict survives unless .text lacks the instruction and other executable bytes contain it. |
| StrippedReport.SymbolsSurviveStripping | internal/checksec/symbols.go:18-26 | The strip check changes exactly when there were static symbols. |
| StrippedReport.PathsSurviveStripping | internal/checksec/rpath.go:75-125 | Both path results survive if and only if all or none of their strings are terminated: other lists never show the same text. |
| StrippedReport.LinkingTells | internal/checksec/report.go:44-63 | Linking loses nothing: equal linked results of the three mechanisms come from equal own results. |
| StrippedReport.ReportSurvivesStripping | README.md:24 | Stripping the section headers changes nothing in the whole report if and only if all these conditions hold; RELRO, BIND_NOW, NX, PIE and PIC never change. |
| StrippedReport.RetguardSectionLost | internal/checksec/ohos_retguard.go:21-23 | A file that loses retguard because only the section marks it. |
| StrippedReport.CodeOutsideText | internal/checksec/pac_cfi.go:26-42 | A file whose .text lacks the instruction that other executable bytes contain: found only without section headers. |
| StrippedReport.ReportChanges | README.md:24 | A file whose report changes. |
| Rpath.Summarize | internal/checksec/rpath.go:53-63 | The nested loops collect all colon-separated entries and keep the worst judgement. |
| Rpath.SummarizeRunpath | internal/checksec/rpath.go:49-73 | The RUNPATH result is graded by the worst judgement. |
| Rpath.SummarizeRpathStrict | internal/checksec/rpath.go:93-115 | The RPATH result and the reason it shows. |
| Rpath.JoinedEntries | internal/checksec/rpath.go:55-64 | Joining all entries equals joining the original strings with colons. |
| Rpath.WorstIsFirstMaximum | internal/checksec/rpath.go:53-63 | The worst judgement bounds all others and, unless all are safe, is that of the first entry attaining it. |
| Rpath.SummariesMeaning | internal/checksec/rpath.go:44-73 | A non-empty RUNPATH is bad exactly with an insecure entry and a warning exactly with a risky but no insecure one; both summaries show the recorded strings. |
| Rpath.SummariesMonotone | internal/checksec/rpath.go:44-115 | Adding strings never lowers the severity; the strict summary is bad exactly for non-empty lists, whatever the file system says. |
| Rpath.StrictShowsPaths | internal/checksec/rpath.go:110-114 | Two equal RPATH results come from lists that join to the same text. |
| Rpath.RunpathShowsPaths | internal/checksec/rpath.go:64-72 | Two equal RUNPATH results come from lists that join to the same text. |
| Fortify.BaseNameFacts | internal/checksec/fortify.go:253-257 | A well-formed checked name is recovered from its base, and the base is no checked name. |
| Fortify.UniverseBases | internal/checksec/fortify.go:17-57 | Base names are injective on the universe, and none matches the fortified pattern. |
| Fortify.SortExact | internal/checksec/fortify.go:122 | Sorting permutes the strings into ascending order. |
| Fortify.TypedNames | internal/checksec/fortify.go:95-116 | The loop keeps the non-empty names of function and untyped symbols, in order. |
| Fortify.AddFortified | internal/checksec/fortify.go:85-94 | The closure over the seen map adds the version-stripped matching names not seen before. |
| Fortify.FortifiedChkNames | internal/checksec/fortify.go:84-124 | The three scans and the sort give the specified list. |
| Fortify.FortifiedExact | internal/checksec/fortify.go:73-124 | That list is ascending, free of repetitions, and holds exactly the version-stripped matching names of all three sources. |
| Fortify.FortifiedOrderFree | internal/checksec/fortify.go:73-124 | The list depends only on which names are referenced, not on symbol order or duplicates. |
| Fortify.AddBases | internal/checksec/fortify.go:194-204 | The map gains exactly the version-stripped names. |
| Fortify.BaseMap | internal/checksec/fortify.go:216-219 | The map's keys are exactly the bases of the universe. |
| Fortify.CountUnprotected | internal/checksec/fortify.go:220-227 | Whatever the order of the walk, the count is the size of the intersection. |
| Fortify.FortifyCheck | internal/checksec/fortify.go:152-243 | All branches of the analysis give the specified summary and counts. |
| Fortify.FortifyNeverDoubleCounts | internal/checksec/fortify.go:212-228 | Fortified and unprotected names are disjoint and the fortifiable count is the size of their union. |
| Fortify.FortifyMonotone | internal/checksec/fortify.go:194-228 | Both counts ignore order and repetition of symbols and grow with the referenced names. |
| Report.CheckTable.LinkStackProtection | internal/checksec/report.go:49-63 | The nested loops leave the table as the linkage function of the old one says. |
| Report.LinkingKeepsVerdict | internal/checksec/report.go:44-63 | Linking keeps the stack-protection verdict, every good value and every other key; afterwards all three are good or nothing changed. |
| Report.LinkedValues | internal/checksec/report.go:44-63 | A passing mechanism keeps its value, any other names the first passing one. |
| Report.LinkingIdempotent | internal/checksec/report.go:49-63 | Linking twice is linking once. |
| Report.FillErrors | internal/checksec/report.go:68-71 | The table holds an error result for each canonical key and nothing else. |
| Report.CheckFile | internal/checksec/report.go:65-104 | The checks run in order on the table give the specified report, on both error paths too. |
| Report.ReportComplete | internal/checksec/report.go:65-71 | Every report has exactly the canonical keys, even on error paths. |
| Compliance.ComplianceOf | internal/checksec/compliance.go:150-170 | The loop evaluates each rule once, in order, and counts the verdicts. |
| Compliance.CountsAddUp | internal/checksec/compliance.go:159-166 | Pass, fail and n/a counts add up to the number of items; fail is positive exactly when an item fails. |
| Compliance.RollupExact | internal/checksec/compliance.go:149-170 | Every rule is counted once and the summary reports a failure exactly when a rule fails. |
| Compliance.HasFailures | cmd/scc/main.go:222-241 | The nested loops answer whether some report has an error or a bad failing key, with stack protection as a group. |
| Compliance.ExitCode | cmd/scc/main.go:158-170 | 2 exactly when a report fails in the mode that the format selects, else 0. |
| Compliance.FailsExactly | cmd/scc/main.go:173-176 | Which statuses make a report fail. |
| Compliance.ModesAgree | cmd/scc/main.go:158-171 | For every error-free report of CheckFile the normal mode fails if and only if a rule other than stripped fails or pic is bad. |
| Compliance.ErrorsFailBoth | internal/checksec/compliance.go:45-147 | An errored report fails both modes, with 6 rules failing, 1 not applicable and none passing. |
| Compliance.GatesAgreeExactly | cmd/scc/main.go:158-171 | Both gates decide alike on a report if and only if it is an errored one, a rule other than stripped fails, or stripped fails exactly when pic is bad. |
| CommandLine.CollectFlag | cmd/scc/main.go:190-213 | Collecting one flag, with the next argument as its value when it is declared, not boolean, has no `=` and is not last, keeps both groups in step with the specification. |
| CommandLine.ReorderArgs | cmd/scc/main.go:181-220 | The loop returns the flags with their values, then the positionals. |
| CommandLine.StepFacts | cmd/scc/main.go:190-213 | Rewriter and flag parser agree on what is a flag and how many arguments it takes. |
| CommandLine.InterleavedParts | README.md:63 | The full scan of the original arguments in terms of its flags, positionals and first error. |
| CommandLine.ParseFlagsThen | cmd/scc/main.go:105 | What Go's stop-at-first-positional parser makes of the collected flags followed by any tail. |
| CommandLine.ReorderExact | cmd/scc/main.go:178-220 | Parsing the rewritten list gives what the full scan of the original gives if and only if a flag is bad anyway or no positional would be taken for a value or a flag. |
| CommandLine.DanglingTakesPositional | cmd/scc/main.go:207-212 | A value flag left last takes the first positional instead of failing. |
| CommandLine.TerminatorDropped | cmd/scc/main.go:187-189 | The arguments `--` and `-x` become `-x` alone, which the parser rejects although the full scan takes it for a target. |
| CommandLine.TokensConserved | cmd/scc/main.go:181-220 | The output is a permutation of the input less one acting `--`. |
| CommandLine.GroupsInOrder | cmd/scc/main.go:181-220 | Flags and positionals each keep their original order. |
| CommandLine.ReorderIdempotent | cmd/scc/main.go:181-220 | Without an acting `--` rewriting twice is rewriting once, even with unknown flags or a missing last value. |
| CommandLine.FlagsAnywhere | README.md:63 | Complete flags after plain targets are rewritten to the same list as before them. |
| Verdicts.SegmentsExact | internal/elfgen/elfgen.go:310-332 | An image has exactly the segment types its layout asks for. |
| Verdicts.TableFlags | internal/elfgen/elfgen.go:159-177 | The written section announces immediate binding, text relocations and DF_1_PIE exactly as the fields say. |
| Verdicts.BindNowOfImage | internal/checksec/bindnow.go:22-51 | Immediate binding is found exactly for BindNow or FlagsBind. |
| Verdicts.RelroOfImage | internal/checksec/relro.go:15-36 | Full RELRO exactly with Relro and one of the two binding fields. |
| Verdicts.NxOfImage | internal/checksec/nx.go:11-33 | The stack verdict follows NoStack and GnuStackX. |
| Verdicts.PieOfImage | internal/checksec/pie.go:10-48 | Static PIE exactly for ETDyn with Flags1Pie and neither Interp nor Pie; the other classes likewise. |
| Verdicts.PicOfImage | internal/checksec/pic.go:14-29 | Text relocations are reported exactly for a dynamic image with TextRel or FlagsTextRel. |
| Verdicts.RetguardOfImage | internal/checksec/ohos_retguard.go:14-30 | Retguard is found exactly on AArch64 with Retguard. |
| Verdicts.PacOfImage | internal/checksec/pac_cfi.go:19-44 | On AArch64 the verdict says whether the image contains the instruction; PacIBSP implies that it does. |
| Verdicts.CanaryOfImage | internal/checksec/canary.go:51-61 | The canary is found exactly when a found name has a canary prefix; found names are the layout's when its symbols survive. |
| Verdicts.PathsOfImage | internal/checksec/rpath.go:75-125 | RPATH and RUNPATH results judge exactly the stored paths, when the string table is found. |
| Verdicts.RpathOfImage | internal/checksec/rpath.go:82-91 | RPATH is bad exactly when the layout has a non-empty entry and a found string table. |
| Verdicts.LibcOfImage | internal/checksec/libc.go:23-50 | FORTIFY analysis applies exactly when the string table is found. |
| ImageReport.LinkedFrom | internal/checksec/report.go:44-63 | What each mechanism shows after linking, from what the layout provides. |
| ImageReport.FortifyOfImage | internal/checksec/fortify.go:152-243 | The FORTIFY results are the sizes of the fortified and checkable name sets among the names found, or not applicable. |
| ImageReport.ReportOfImage | internal/checksec/report.go:65-104 | End to end: for every layout the report on its image has every canonical key with the result that the layout's fields say. |
| ImageReport.CheckGenerated | internal/checksec/checksec_test.go:12-35 | Building an image, opening it and running all checks, step by step, returns the report that the layout's fields say. |
| ImageReport.ExitOfImage | cmd/scc/main.go:222-241 | The normal gate fails exactly when the layout lacks a protection or has text relocations. |
| ImageReport.ComplianceOfImage | internal/checksec/compliance.go:45-170 | The compliance gate fails exactly when the layout lacks a protection or is a shared library with text relocations. |
| ImageReport.GatesDiffer | cmd/scc/main.go:158-170 | An executable layout with text relocations as its only flaw fails the normal gate with no failed rule. |
| Bytes.GetCons | internal/checksec/dyn.go:43-61 | The first byte of a number is its lowest digit to the base 256 in little-endian order and its highest one in big-endian order. |
| Bytes.Get8 | internal/checksec/dyn.go:45-46 | Eight bytes in either order, digit by digit. |
| Bytes.HasBitExact | internal/checksec/bindnow.go:31 | A flag bit is set exactly when it is in what remains of the value once all higher bits are taken away. |
| Bytes.ToI64Exact | internal/checksec/dyn.go:84 | An offset is the one number of the signed range congruent to the unsigned word. |
| ReaderLaws.EntryAtExact | internal/checksec/dyn.go:43-61 | Which bytes make tag and value, for both classes and both byte orders. |
| ReaderLaws.DynEntriesExact | internal/checksec/dyn.go:41-63 | Entry k stands at 16k (8k in 32-bit files); the list ends where no whole entry is left or a tag is zero. |
| ReaderLaws.ReadAtExact | internal/checksec/dyn.go:104-109 | A read is complete exactly when its range lies in the file, fails at a negative offset, and leaves zeros behind the end. |
| ReaderLaws.ReadSegmentExact | internal/checksec/dyn.go:28-36 | The bytes of a segment, and when its reading fails. |
| ReaderLaws.CstrExact | internal/checksec/dyn.go:131-141 | The string at an offset is the zero-free text up to the next zero or the end of the table, and nothing else is. |
| ReaderLaws.StringTableExact | internal/checksec/dyn.go:92-110 | The string table is found exactly with tags 5 and 10, a size from 1 to 2^24 and a mapped non-negative offset; it holds the file's bytes, zeros past the end. |
| ReaderLaws.SymentExact | internal/checksec/dyn.go:161-168 | A missing or zero entry size means 24 bytes in 64-bit files and 16 in 32-bit ones. |
| ReaderLaws.ScanLimitExact | internal/checksec/dyn.go:175-192 | The size bound as a number for every header list: fallback 2^20, cap 2^24. |
| ReaderLaws.OffsetExact | internal/checksec/dyn.go:78-88 | The first PT_LOAD header that covers the address decides the translation. |
| ReaderLaws.SymTableExact | internal/checksec/dyn.go:151-192 | When the symbol table is found, and where. |
| ReaderLaws.NewFileExact | internal/checksec/report.go:80-84 | Exactly which images the header reader accepts, byte by byte, and which words it takes. |
| ReaderLaws.RecordNameExact | internal/checksec/dyn.go:213-218 | A record names a function exactly with type 2 and a resolvable non-empty string. |
| ReaderLaws.AdvertisedExact | internal/checksec/dyn.go:236-250 | Names of the static table come first, then those of the dynamic one. |
| ImageLaws.HeaderWordsMeaning | internal/elfgen/elfgen.go:217-240 | The identification bytes and every word of the ELF header, as numbers at their places in the file. |
| ImageLaws.PhdrWordsMeaning | internal/elfgen/elfgen.go:297-308 | All eight words of every program header, at their places in the file. |
| ImageLaws.HeaderMeaning | internal/elfgen/elfgen.go:221-229 | Type and machine as numbers of the fields, and the list of segment types by number, in order. |
| ImageLaws.InterpreterMeaning | internal/elfgen/elfgen.go:312-314 | Every PT_INTERP header points at the interpreter path with its terminator, at an address that translates back. |
| ImageLaws.DynamicMeaning | internal/elfgen/elfgen.go:315-317 | Every PT_DYNAMIC header points at the dynamic entries with their terminator, at an address that translates back. |
| ImageLaws.SegmentsMeaning | internal/elfgen/elfgen.go:310-332 | PT_LOAD and PT_GNU_RELRO cover exactly the image and the markers are empty, with flags as numbers. |
| TableLaws.EntriesMeaning | internal/elfgen/elfgen.go:145-180 | Which dynamic entries an image has, by number and in order, and for which fields. |
| TableLaws.FlagValuesMeaning | internal/elfgen/elfgen.go:159-177 | The values of the flag entries, as numbers. |
| TableLaws.RecordsMeaning | internal/elfgen/elfgen.go:244-250 | The records that DT_SYMTAB points at: info byte 18 for the function names, 17 for the object names behind them, zeros after it. |
| TableLaws.NeededMeaning | internal/elfgen/elfgen.go:80-83 | The needed library reads back as "libc.so.6" exactly with symbols and a table of at most 2^24 bytes. |
| DetectorLaws.BindNowMeaning | internal/checksec/bindnow.go:24-51 | Good exactly when in one of the two views some entry has tag 24, or the first with tag 30 has bit 3 set, or the first with tag 0x6ffffffb has bit 0 set. |
| DetectorLaws.RelroMeaning | internal/checksec/relro.go:15-36 | Full exactly with that and a PT_GNU_RELRO header, partial with the header alone. |
| DetectorLaws.NxMeaning | internal/checksec/nx.go:15-32 | The first PT_GNU_STACK header decides by its lowest flag bit; one behind 10001 others is not reached. |
| DetectorLaws.NxOpen | internal/checksec/nx.go:15-27 | Without one the answer is open, or an error with more than 10001 headers. |
| DetectorLaws.PieMeaning | internal/checksec/pie.go:15-47 | The classification by file type, PT_INTERP header and bit 27 of the first DT_FLAGS_1 value, sections first. |
| DetectorLaws.PicMeaning | internal/checksec/pic.go:14-29 | Text relocations are tag 22 or bit 2 of the first DT_FLAGS value, in files of type 3. |
| DetectorLaws.RetguardMeaning | internal/checksec/ohos_retguard.go:14-30 | On machine 183, the section or a header of type 0x6788fc60 counts. |
| DetectorLaws.PacMeaning | internal/checksec/pac_cfi.go:21-44 | The four instruction bytes count in a readable .text, or without one in a wholly readable executable PT_LOAD. |
| DetectorLaws.CanaryMeaning | internal/checksec/canary.go:14-61 | A canary is exactly a name of the three sources that starts with one of the four markers. |
| DetectorLaws.LibcMeaning | internal/checksec/libc.go:26-50 | Analysis applies exactly with a PT_DYNAMIC header and a needed library that starts with "libc.so" or contains "libc-". |
| DetectorLaws.StringsForMeaning | internal/checksec/rpath.go:76-81 | The section view decides when it lists a string, the program headers otherwise. |
| Strings.StrLeExact | internal/checksec/fortify.go:122 | The order of the sorted list: the first difference decides, a prefix comes first. |
| PathLaws.EntriesArePieces | internal/checksec/rpath.go:58-60 | The entries are the colon-separated pieces of the recorded strings joined. |
| PathLaws.ClassifyExact | internal/checksec/rpath.go:25-42 | Which pieces are insecure or risky, and the reason for each. |
| PathLaws.RunpathMeaning | internal/checksec/rpath.go:50-74 | RUNPATH shows the joined paths; it is bad with the reason of the first insecure piece, else a warning with that of the first risky piece, else informational. |
| PathLaws.RpathMeaning | internal/checksec/rpath.go:96-117 | RPATH is bad and shows the same reason, or the prohibition alone. |
| PathLaws.PathStatusExact | internal/checksec/rpath.go:50-74 | Bad exactly with an insecure piece, a warning exactly with a risky and no insecure one. |
| FortifyLaws.PatternExact | internal/checksec/fortify.go:66-71 | A name is fortified exactly when it is "__", anything, "_chk" or "_chkieee128", or "__chk" or "__chkieee128". |
| FortifyLaws.BaseSymbolNameExact | internal/checksec/fortify.go:246-251 | The base is the one at-free text that ends at the end of the name or at an at sign. |
| FortifyLaws.ItoaExact | internal/checksec/fortify.go:232-233 | The shown digits denote the count and have no leading zero. |
| FortifyLaws.FortifiedMeaning | internal/checksec/fortify.go:84-124 | Exactly which names are listed, in terms of the symbols of the file. |
| FortifyLaws.UnprotectedMeaning | internal/checksec/fortify.go:194-227 | Exactly which functions count as called without their check. |
| FortifyLaws.UniverseSize | internal/checksec/fortify.go:14-59 | The universe has 84 checked functions. |
| FortifyLaws.FortifyMeaning | internal/checksec/fortify.go:228-242 | With a libc: the summary text and status, and both counts as numbers. |
| FortifyLaws.FortifyWithoutLibc | internal/checksec/fortify.go:161-192 | Without one: nothing is judged unless there is a static symbol table, and fortifiable calls never are. |
| ComplianceLaws.PieRuleMeaning | internal/checksec/compliance.go:46-67 | Pass for executables that are position independent and libraries without text relocations; not applicable to object files. |
| ComplianceLaws.StackRuleMeaning | internal/checksec/compliance.go:68-76 | Pass exactly with one good mechanism of the three. |
| ComplianceLaws.RelroRuleMeaning | internal/checksec/compliance.go:77-89 | Pass for full and partial RELRO, not applicable without program headers. |
| ComplianceLaws.BindNowRuleMeaning | internal/checksec/compliance.go:90-102 | Pass exactly with immediate binding. |
| ComplianceLaws.NxRuleMeaning | internal/checksec/compliance.go:103-120 | Pass, open or fail as the stack verdict is good, open or neither. |
| ComplianceLaws.StrippedRuleMeaning | internal/checksec/compliance.go:121-132 | Fail exactly with a static symbol. |
| ComplianceLaws.RpathRuleMeaning | internal/checksec/compliance.go:133-146 | Fail exactly with a recorded RPATH string. |
| ComplianceLaws.SymbolsMeaning | internal/checksec/symbols.go:18-26 | The strip check says how many static symbols there are. |
| ComplianceLaws.SummaryInOrder | internal/checksec/compliance.go:150-170 | The summary lists the seven rules in order, each with its verdict. |
| ComplianceLaws.ReportKeysMeaning | internal/checksec/report.go:67-104 | Every report has the fourteen keys by name; an errored one says at each that the check could not run. |
| ComplianceLaws.ErroredRules | internal/checksec/compliance.go:45-147 | On an errored report immediate binding does not apply and every other rule fails. |
| CommandLaws.BareFlag | cmd/scc/main.go:190-213 | What parser and rewriter do with a flag without a value part, by its declaration and what follows. |
| CommandLaws.FlagWithValue | cmd/scc/main.go:190-196 | The same with a value part, and the twelve spellings of a boolean. |
| CommandLaws.OtherTokens | cmd/scc/main.go:186-190 | The terminator, malformed flags and arguments that are no flags. |
| CommandLaws.SettingsInOrder | cmd/scc/main.go:105-108 | Settings are collected in written order and a failure names the offending token. |
| CommandLaws.FormsCovered | cmd/scc/main.go:184-218 | These written forms are all there are. |
| ReaderLaws.DynamicOfSegment | internal/checksec/dyn.go:28-37 | Only readable headers of type 2 contribute entries. |
| ReaderLaws.StringsOfOne | internal/checksec/dyn.go:114-129 | An entry contributes its string exactly with the wanted tag and a value inside the table. |
| ReaderLaws.WrapExact | internal/checksec/dyn.go:195-203 | A wrapped sum is the number of the signed range congruent to the sum. |
| TableLaws.InstructionMeaning | internal/elfgen/elfgen.go:109-113 | The string table of a layout that asks for it ends with the four instruction bytes. |
| DetectorLaws.SectionStringsOfOne | internal/checksec/rpath.go:76-78 | The section view lists an entry's string exactly when a zero byte ends it inside the table. |
| Strings.ContainsExact | internal/checksec/libc.go:43 | The text search finds the text exactly when something can stand on both sides of it. |
| Strings.AffixesExact | internal/checksec/fortify.go:67-70 | The prefix and suffix tests, as concatenations. |
| PathLaws.SplitExact | internal/checksec/rpath.go:57 | Text without a colon in front of a colon is the first piece. |
| PathLaws.PathTags | internal/checksec/rpath.go:86-125 | The two checks judge the strings with tags 15 and 29. |

## Left out

- ImageReading.HeaderRoundTrip: needs base address plus image size below 2^63 (`Buildable`), as do all results on generated images; no slice in memory is longer.
- Dyn.PhdrSymbolNames: needs a DT_SYMENT below 2^63 (`Scannable`), as does everything that scans symbols; from 2^63 on the source slices its buffer with a negative bound and stops.
- Detectors.ResolveLibcFlag: models only whether the answer is "none"; which libc path is found on the host is never read by the counts.
- StrippedReport.ReportSurvivesStripping: compares files whose two views describe the same dynamic entries, strings and symbol table and whose .text is loaded; files whose headers contradict each other are not compared.
- Fortify.SortExact: the library sort is modelled as an insertion sort; only its result matters.
- CommandLine.ReorderExact: a failed parse keeps the offending token but not the assignments made before it; `-h` and `-help` count as failed like any undeclared flag.
- Report.CheckTable.Set: single map assignments get no row of their own; CheckFile states the whole table.
- The section-based lookups of `debug/elf` are lists given to the model, including its rule that a dynamic string must end inside its table; `debug/elf` is not part of this repository.
- 32-bit images are read but not written: the generator emits ELF64 only.
- A nil `*elf.File` and a nil raw file: `CheckFile` never passes one.
- Reading errors other than a negative offset or the end of the file.
- Opening files, walking directories, reading lists, globbing, environment variables and terminal detection; `os.Stat` is an oracle and the raw file is a byte sequence.
- The printers of `internal/output`, usage text, version, command and format dispatch.
- The human-readable name and requirement of each compliance item.
- The options `-libc`, `-verbose` and `-no-color`, which decide nothing modelled here.
- Memory limits of the host: an allocation of a segment's declared size always succeeds.
