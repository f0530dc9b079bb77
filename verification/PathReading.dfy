/** The strings of a generated image: DT_NEEDED, DT_RPATH and DT_RUNPATH read back. */
module PathReading {
  import opened Bytes
  import opened Strings
  import opened Elf
  import opened Dyn
  import opened DynProperties
  import opened ElfGen
  import opened ImageReading
  import opened SymbolReading

  // ---- The joined path ---------------------------------------------------

  /** The entries from the first non-empty one on. */
  function DropLeadingEmpty(entries: seq<GoString>): (r: seq<GoString>)
    ensures |r| <= |entries|
    ensures r != [] ==> r[0] != ""
    ensures entries != [] && entries[0] != "" ==> r == entries
  {
    if entries == [] then []
    else if entries[0] == "" then DropLeadingEmpty(entries[1..])
    else entries
  }

  lemma {:induction false} DropLeadingSnoc(entries: seq<GoString>, e: GoString)
    ensures DropLeadingEmpty(entries + [e]) ==
            if DropLeadingEmpty(entries) == [] then (if e == "" then [] else [e]) else DropLeadingEmpty(entries) + [e]
  {
    if entries == [] {
      assert entries + [e] == [e];
      assert [e][1..] == [];
    } else {
      assert (entries + [e])[1..] == entries[1..] + [e];
      DropLeadingSnoc(entries[1..], e);
    }
  }

  lemma {:induction false} JoinSnoc(parts: seq<string>, e: string)
    requires |parts| > 0
    ensures Join(parts + [e]) == Join(parts) + ":" + e
  {
    JoinConcat(parts, [e]);
  }

  lemma JoinNonEmpty(parts: seq<string>)
    requires |parts| > 0 && parts[0] != ""
    ensures Join(parts) != ""
  {
  }

  /** The generator joins the entries with colons, but leading empty entries vanish. */
  lemma {:induction false} JoinedPathExact(entries: seq<GoString>)
    ensures JoinedPath(entries) == Join(DropLeadingEmpty(entries))
  {
    if entries != [] {
      var before := entries[..|entries| - 1];
      var e := entries[|entries| - 1];
      assert entries == before + [e];
      JoinedPathExact(before);
      DropLeadingSnoc(before, e);
      var kept := DropLeadingEmpty(before);
      if kept != [] {
        JoinSnoc(kept, e);
        JoinNonEmpty(kept);
      }
    }
  }

  lemma {:induction false} DroppingShortens(entries: seq<GoString>)
    ensures |Join(DropLeadingEmpty(entries))| <= |Join(entries)|
    ensures DropLeadingEmpty(entries) != [] && entries[0] == "" ==>
              |Join(DropLeadingEmpty(entries))| < |Join(entries)|
  {
    if entries != [] && entries[0] == "" {
      DroppingShortens(entries[1..]);
    }
  }

  predicate NulFree(entries: seq<GoString>) {
    forall i :: 0 <= i < |entries| ==> '\0' !in entries[i]
  }

  lemma {:induction false} JoinNulFree(parts: seq<string>)
    ensures '\0' !in Join(parts) <==> forall i :: 0 <= i < |parts| ==> '\0' !in parts[i]
  {
    if |parts| > 1 {
      JoinNulFree(parts[1..]);
      assert forall i :: 0 < i < |parts| ==> parts[i] == parts[1..][i - 1];
    }
  }

  /** Entries that come back from the colon-joined, NUL-terminated form. */
  predicate PathSurvives(entries: seq<GoString>) {
    entries != [] && entries[0] != "" && ColonFree(entries) && NulFree(entries)
  }

  /** Splitting what is read back gives the entries if and only if they are colon-free and
      NUL-free and do not start with an empty one. */
  lemma PathRoundTripExact(entries: seq<GoString>)
    requires JoinedPath(entries) != ""
    ensures Split(UntilNul(JoinedPath(entries))) == entries <==> PathSurvives(entries)
  {
    var joined := JoinedPath(entries);
    var seen := UntilNul(joined);
    JoinedPathExact(entries);
    UntilNulWhole(joined);
    JoinNulFree(entries);
    if PathSurvives(entries) {
      SplitJoin(entries);
    }
    if Split(seen) == entries {
      JoinSplit(seen);
      DroppingShortens(entries);
      assert entries[0] != "";
      assert seen == joined;
    }
  }

  lemma PathPresent(entries: seq<GoString>)
    ensures JoinedPath(entries) != "" <==> exists i :: 0 <= i < |entries| && entries[i] != ""
  {
    JoinedPathExact(entries);
    SomeNonEmpty(entries);
    if DropLeadingEmpty(entries) != [] {
      JoinNonEmpty(DropLeadingEmpty(entries));
    }
  }

  lemma {:induction false} SomeNonEmpty(entries: seq<GoString>)
    ensures DropLeadingEmpty(entries) != [] <==> exists i :: 0 <= i < |entries| && entries[i] != ""
  {
    if entries != [] && entries[0] == "" {
      SomeNonEmpty(entries[1..]);
      assert forall i :: 0 < i < |entries| ==> entries[i] == entries[1..][i - 1];
      assert forall i :: 0 <= i < |entries| - 1 ==> entries[1..][i] == entries[i + 1];
    }
  }

  // ---- Strings of the image ----------------------------------------------

  lemma OneString(str: seq<byte>, present: bool, tag: u64, val: u64, s: GoString)
    requires present ==> CstrAt(str, val) == Some(s)
    ensures StringsOf(str, EntryIf(present, tag, val), tag) == OneIf(present, s)
  {
    if present {
      var es := EntryIf(present, tag, val);
      assert es[1..] == [];
    }
  }

  /** The slots of the optional strings hold them, as far as the first NUL. */
  lemma SlotsHold(l: Layout)
    requires |StrTab(l)| <= MAX_STRSZ
    ensures HasSyms(l) ==> CstrAt(StrTab(l), NeededSlot(l)) == Some(LIBC)
    ensures JoinedPath(l.rpath) != "" ==> CstrAt(StrTab(l), RpathSlot(l)) == Some(UntilNul(JoinedPath(l.rpath)))
    ensures JoinedPath(l.runpath) != "" ==> CstrAt(StrTab(l), RunpathSlot(l)) == Some(UntilNul(JoinedPath(l.runpath)))
  {
    StrTabStarts(l);
    LibcWhole();
    OptionalsHold(SymNames(l), HasSyms(l), LIBC, JoinedPath(l.rpath) != "", JoinedPath(l.rpath),
                  JoinedPath(l.runpath) != "", JoinedPath(l.runpath), StrTab(l)) by {
      hide StrTab, Packed;
    }
    hide CstrAt, JoinedPath, UntilNul, StrTab, Packed, SlotAfter;
  }

  lemma StrTabStarts(l: Layout)
    ensures Packed(SymNames(l) + OneIf(HasSyms(l), LIBC) + OneIf(JoinedPath(l.rpath) != "", JoinedPath(l.rpath)) +
                   OneIf(JoinedPath(l.runpath) != "", JoinedPath(l.runpath))) <= StrTab(l)
  {
    hide Packed, JoinedPath, SymNames;
  }

  /** Three optional strings after `a`: each present one is read back from its slot. */
  lemma OptionalsHold(a: seq<GoString>, p: bool, s: GoString, q: bool, t: GoString, r: bool, u: GoString,
                      str: seq<byte>)
    requires Packed(a + OneIf(p, s) + OneIf(q, t) + OneIf(r, u)) <= str && |str| <= MAX_STRSZ
    ensures p ==> CstrAt(str, SlotAfter(a)) == Some(UntilNul(s))
    ensures q ==> CstrAt(str, SlotAfter(a + OneIf(p, s))) == Some(UntilNul(t))
    ensures r ==> CstrAt(str, SlotAfter(a + OneIf(p, s) + OneIf(q, t))) == Some(UntilNul(u))
  {
    hide CstrAt, UntilNul, Packed, SlotAfter;
    var b, c, d := OneIf(p, s), OneIf(q, t), OneIf(r, u);
    if p {
      Regroup(a, b, c, d);
      OptionalHolds(a, s, c + d, str);
    }
    if q {
      OptionalHolds(a + b, t, d, str);
    }
    if r {
      Regroup(a + b + c, d, [], []);
      OptionalHolds(a + b + c, u, [], str);
    }
  }

  lemma Regroup(a: seq<GoString>, b: seq<GoString>, c: seq<GoString>, d: seq<GoString>)
    ensures a + b + (c + d) == a + b + c + d
    ensures a + b + [] == a + b
  {
  }

  lemma LibcWhole()
    ensures UntilNul(LIBC) == LIBC
  {
    UntilNulWhole(LIBC);
  }

  lemma OptionalHolds(before: seq<GoString>, s: GoString, after: seq<GoString>, str: seq<byte>)
    requires Packed(before + [s] + after) <= str && |str| <= MAX_STRSZ
    ensures CstrAt(str, SlotAfter(before)) == Some(UntilNul(s))
  {
    PackedPrefix(before + [s], after);
    SlotHolds(before, s, str);
  }

  lemma TableStrings(l: Layout, str: seq<byte>, tag: u64, a: seq<DynEntry>, b: seq<DynEntry>, c: seq<DynEntry>)
    requires DynTable(l) == a + b + c
    ensures StringsOf(str, DynTable(l), tag) == StringsOf(str, a, tag) + StringsOf(str, b, tag) + StringsOf(str, c, tag)
  {
    StringsOfConcat(str, a + b, c, tag);
    StringsOfConcat(str, a, b, tag);
  }

  /** What each string-valued tag of the written table denotes. */
  function StoredStrings(l: Layout, tag: u64): seq<GoString> {
    if tag == DT_NEEDED then OneIf(HasSyms(l), LIBC)
    else if tag == DT_RPATH then OneIf(JoinedPath(l.rpath) != "", UntilNul(JoinedPath(l.rpath)))
    else if tag == DT_RUNPATH then OneIf(JoinedPath(l.runpath) != "", UntilNul(JoinedPath(l.runpath)))
    else []
  }

  lemma PathStrings(l: Layout, str: seq<byte>, tag: u64, rpath: u64, runpath: u64)
    requires tag in {DT_NEEDED, DT_RPATH, DT_RUNPATH}
    requires JoinedPath(l.rpath) != "" ==> CstrAt(str, rpath) == Some(UntilNul(JoinedPath(l.rpath)))
    requires JoinedPath(l.runpath) != "" ==> CstrAt(str, runpath) == Some(UntilNul(JoinedPath(l.runpath)))
    ensures StringsOf(str, PathEntries(l, rpath, runpath), tag) ==
            if tag == DT_NEEDED then [] else StoredStrings(l, tag)
  {
    hide CstrAt, UntilNul, JoinedPath, StringsOf;
    var a := EntryIf(JoinedPath(l.rpath) != "", DT_RPATH, rpath);
    var b := EntryIf(JoinedPath(l.runpath) != "", DT_RUNPATH, runpath);
    StringsOfConcat(str, a, b, tag);
    if tag == DT_RPATH {
      OneString(str, JoinedPath(l.rpath) != "", DT_RPATH, rpath, UntilNul(JoinedPath(l.rpath)));
    } else {
      NoStringsOf(str, a, tag);
    }
    if tag == DT_RUNPATH {
      OneString(str, JoinedPath(l.runpath) != "", DT_RUNPATH, runpath, UntilNul(JoinedPath(l.runpath)));
    } else {
      NoStringsOf(str, b, tag);
    }
  }

  lemma SymStrings(present: bool, str: seq<byte>, tag: u64, needed: u64, symtab: u64, strtab: u64, strsz: u64)
    requires tag in {DT_NEEDED, DT_RPATH, DT_RUNPATH}
    requires present ==> CstrAt(str, needed) == Some(LIBC)
    ensures StringsOf(str, SymEntries(present, needed, symtab, strtab, strsz), tag) ==
            if tag == DT_NEEDED then OneIf(present, LIBC) else []
  {
    var es := SymEntries(present, needed, symtab, strtab, strsz);
    if present {
      NoStringsOf(str, es[1..], tag);
    }
  }

  lemma FlagStrings(l: Layout, str: seq<byte>, tag: u64)
    requires tag in {DT_NEEDED, DT_RPATH, DT_RUNPATH}
    ensures StringsOf(str, FlagEntries(l), tag) == []
  {
    OtherTags(l, 0, 0);
    hide FlagEntries;
    NoStringsOf(str, FlagEntries(l), tag);
  }

  lemma TableDenotes(l: Layout, tag: u64)
    requires tag in {DT_NEEDED, DT_RPATH, DT_RUNPATH} && |StrTab(l)| <= MAX_STRSZ
    ensures StringsOf(StrTab(l), DynTable(l), tag) == StoredStrings(l, tag)
  {
    hide CstrAt, JoinedPath, UntilNul, StrTab, SymEntries, PathEntries, FlagEntries, StringsOf, HasSyms, NeededSlot,
      RpathSlot, RunpathSlot, Vaddr, U64;
    SlotsHold(l);
    SymStrings(HasSyms(l), StrTab(l), tag, NeededSlot(l), Vaddr(SymOff(l)), Vaddr(StrOff(l)), U64(|StrTab(l)|));
    PathStrings(l, StrTab(l), tag, RpathSlot(l), RunpathSlot(l));
    FlagStrings(l, StrTab(l), tag);
    TableStrings(l, StrTab(l), tag,
                 SymEntries(HasSyms(l), NeededSlot(l), Vaddr(SymOff(l)), Vaddr(StrOff(l)), U64(|StrTab(l)|)),
                 PathEntries(l, RpathSlot(l), RunpathSlot(l)), FlagEntries(l));
  }

  lemma StringsOfImage(l: Layout, raw: seq<byte>, tag: u64)
    requires Buildable(l) && Holds(raw, l) && tag in {DT_NEEDED, DT_RPATH, DT_RUNPATH}
    ensures DynStringsPH(Opened(l), raw, tag) == if TableFound(l) then StoredStrings(l, tag) else []
  {
    hide Holds, Dynamic, DynamicStrings, DynTable, StrTab, HasSyms, StringsOf, StoredStrings, Progs;
    DynamicRead(l, raw);
    StringsRead(l, raw);
    if TableFound(l) {
      TableDenotes(l, tag);
    }
  }

  /** The string tags read back: the needed libc, and the joined paths up to a NUL. Without
      symbols no string table is announced, so the paths are lost. */
  lemma StringRoundTrip(l: Layout, tag: u64)
    requires Buildable(l) && tag in {DT_NEEDED, DT_RPATH, DT_RUNPATH}
    ensures DynStringsPH(Opened(l), Image(l), tag) == if TableFound(l) then StoredStrings(l, tag) else []
  {
    hide Opened, DynStringsPH, StoredStrings, TableFound, Holds;
    ImageHolds(l);
    StringsOfImage(l, Image(l), tag);
  }

  /** The recorded path comes back entry by entry if and only if the string table is found and
      the entries are colon-free, NUL-free and do not start with an empty one. */
  lemma RpathRoundTripExact(l: Layout, tag: u64)
    requires Buildable(l) && tag in {DT_RPATH, DT_RUNPATH}
    ensures var entries := if tag == DT_RPATH then l.rpath else l.runpath;
            var found := DynStringsPH(Opened(l), Image(l), tag);
            (|found| == 1 && Split(found[0]) == entries) <==> (TableFound(l) && PathSurvives(entries))
  {
    hide Opened, Image, DynStringsPH, TableFound, Split, JoinedPath;
    var entries := if tag == DT_RPATH then l.rpath else l.runpath;
    StringRoundTrip(l, tag);
    PathPresent(entries);
    if JoinedPath(entries) != "" {
      PathRoundTripExact(entries);
    }
  }

  // ---- Paths that do not come back ---------------------------------------

  /** A layout with the given function names and RPATH entries and nothing else. */
  function PathLayout(dynSyms: seq<GoString>, rpath: seq<GoString>): Layout {
    Layout("path", 0, false, false, false, false, false, false, false, false, false, false, false, false, false,
           rpath, [], dynSyms, [])
  }

  lemma PathTables()
    ensures |StrTab(PathLayout(["f"], ["", "/a"]))| == 16 && |StrTab(PathLayout([], ["/a"]))| == 4
    ensures JoinedPath(["", "/a"]) == "/a" && JoinedPath(["/a"]) == "/a"
  {
    var empty: seq<GoString> := [];
    assert ["", "/a"][..1] == [""] && [""][..0] == empty && ["/a"][..0] == empty;
    assert JoinedPath(empty) == "" && JoinedPath([""]) == "";
    PathTable(["f"], ["", "/a"]);
    PathTable([], ["/a"]);
    PackedLength(["f", LIBC, "/a"]);
    PackedLength(["f", LIBC]);
    PackedLength(["f"]);
    PackedLength(["/a"]);
    PackedLength([]);
  }

  lemma PathTable(dynSyms: seq<GoString>, rpath: seq<GoString>)
    requires JoinedPath(rpath) == "/a"
    ensures StrTab(PathLayout(dynSyms, rpath)) == Packed(dynSyms + OneIf(dynSyms != [], LIBC) + ["/a"])
  {
    var l := PathLayout(dynSyms, rpath);
    assert SymNames(l) == dynSyms;
    assert JoinedPath(l.runpath) == "";
    hide Packed, JoinedPath;
    var names := dynSyms + OneIf(dynSyms != [], LIBC) + ["/a"];
    assert names + [] == names;
    assert Packed(names) + [] == Packed(names);
  }

  /** A leading empty entry vanishes in the join: what is read back splits into fewer entries. */
  lemma LeadingEmptyLost()
    ensures var l := PathLayout(["f"], ["", "/a"]);
            && Buildable(l)
            && DynStringsPH(Opened(l), Image(l), DT_RPATH) == ["/a"] && Split("/a") != l.rpath
  {
    hide StrTab, Image, Opened, DynStringsPH, JoinedPath, Split, UntilNul, Buildable, Packed, PathSurvives;
    var l := PathLayout(["f"], ["", "/a"]);
    PathTables();
    SmallLayout(l);
    StringRoundTrip(l, DT_RPATH);
    UntilNulWhole("/a");
    PathRoundTripExact(l.rpath);
    StartsEmpty(l.rpath);
  }

  lemma StartsEmpty(entries: seq<GoString>)
    requires entries != [] && entries[0] == ""
    ensures !PathSurvives(entries)
  {
  }

  /** Without symbols no string table is announced: the recorded path is not found at all. */
  lemma PathWithoutSymbolsLost()
    ensures var l := PathLayout([], ["/a"]);
            && Buildable(l)
            && DynStringsPH(Opened(l), Image(l), DT_RPATH) == []
  {
    var l := PathLayout([], ["/a"]);
    PathTables();
    hide StrTab, Image, Opened, DynStringsPH, JoinedPath, Split;
    SmallLayout(l);
    StringRoundTrip(l, DT_RPATH);
  }
}
