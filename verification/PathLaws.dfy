/** What the RPATH and RUNPATH results say about the colon-separated pieces of the recorded paths. */
module PathLaws {
  import opened Bytes
  import opened Strings
  import opened Results
  import opened Elf
  import opened Detectors
  import opened Rpath

  // ---- Pieces ------------------------------------------------------------

  /** Text without a colon in front of a colon is the first piece. */
  lemma SplitExact(a: string, b: string)
    requires ':' !in a
    ensures Split(a) == [a]
    ensures Split(a + ":" + b) == [a] + Split(b)
  {
    IndexAfter(a, b);
    var s := a + ":" + b;
    assert s[..|a|] == a && s[|a| + 1..] == b;
  }

  /** The entries are the colon-separated pieces of all strings joined. */
  lemma EntriesArePieces(paths: seq<string>)
    requires paths != []
    ensures Entries(paths) == Split(Join(paths))
  {
    hide Join, Split, Entries;
    JoinedEntries(paths);
    EntriesColonFree(paths);
    SplitJoinExact(Entries(paths));
  }

  lemma {:induction false} EntriesColonFree(paths: seq<string>)
    ensures ColonFree(Entries(paths))
  {
    if paths != [] {
      EntriesColonFree(paths[..|paths| - 1]);
      JoinSplit(paths[|paths| - 1]);
    }
  }

  // ---- Judging a piece ---------------------------------------------------

  predicate HasOrigin(piece: string) {
    Contains(piece, "$ORIGIN") || Contains(piece, "${ORIGIN}")
  }

  /** An empty piece, or one without $ORIGIN that is not absolute or names a world-writable directory. */
  predicate IsInsecure(stat: string -> Stat, piece: string) {
    || piece == ""
    || (!HasOrigin(piece) && (!HasPrefix(piece, "/") || stat(piece) == Found(true, true)))
  }

  /** A piece with $ORIGIN, or an absolute one that does not exist on this host. */
  predicate IsRisky(stat: string -> Stat, piece: string) {
    HasOrigin(piece) || (HasPrefix(piece, "/") && stat(piece) == Missing)
  }

  lemma EmptyHasNoOrigin()
    ensures !HasOrigin("")
  {
  }

  lemma ClassifyExact(stat: string -> Stat, piece: string)
    ensures Classify(stat, piece).risk == Insecure <==> IsInsecure(stat, piece)
    ensures Classify(stat, piece).risk == Warning <==> IsRisky(stat, piece) && !IsInsecure(stat, piece)
    ensures IsInsecure(stat, piece) ==>
              Classify(stat, piece).reason ==
              if piece == "" then "empty entry = cwd"
              else if !HasPrefix(piece, "/") then "relative path"
              else "world-writable"
    ensures IsRisky(stat, piece) && !IsInsecure(stat, piece) ==>
              Classify(stat, piece).reason ==
              if HasOrigin(piece) then "$ORIGIN-relative" else "dir not found on this host"
  {
    hide Contains;
    EmptyHasNoOrigin();
  }

  // ---- The two results ---------------------------------------------------

  /** `k` is the first insecure piece. */
  predicate FirstInsecure(stat: string -> Stat, pieces: seq<string>, k: nat) {
    k < |pieces| && IsInsecure(stat, pieces[k]) && forall i :: 0 <= i < k ==> !IsInsecure(stat, pieces[i])
  }

  /** No piece is insecure and `k` is the first risky one. */
  predicate FirstRisky(stat: string -> Stat, pieces: seq<string>, k: nat) {
    && k < |pieces| && IsRisky(stat, pieces[k]) && (forall i :: 0 <= i < k ==> !IsRisky(stat, pieces[i]))
    && forall i :: 0 <= i < |pieces| ==> !IsInsecure(stat, pieces[i])
  }

  predicate AllSafe(stat: string -> Stat, pieces: seq<string>) {
    forall i :: 0 <= i < |pieces| ==> !IsInsecure(stat, pieces[i]) && !IsRisky(stat, pieces[i])
  }

  lemma ClassifyAll(stat: string -> Stat, pieces: seq<string>)
    ensures forall i :: 0 <= i < |pieces| ==>
                          (Classify(stat, pieces[i]).risk == Insecure <==> IsInsecure(stat, pieces[i]))
    ensures forall i :: 0 <= i < |pieces| ==>
                          (Classify(stat, pieces[i]).risk == Warning <==>
                           IsRisky(stat, pieces[i]) && !IsInsecure(stat, pieces[i]))
  {
    hide Classify, IsInsecure, IsRisky;
    forall i | 0 <= i < |pieces|
      ensures Classify(stat, pieces[i]).risk == Insecure <==> IsInsecure(stat, pieces[i])
      ensures Classify(stat, pieces[i]).risk == Warning <==>
              IsRisky(stat, pieces[i]) && !IsInsecure(stat, pieces[i])
    {
      ClassifyExact(stat, pieces[i]);
    }
  }

  lemma WorstOf(stat: string -> Stat, pieces: seq<string>, k: nat)
    ensures FirstInsecure(stat, pieces, k) ==> Worst(stat, pieces) == Classify(stat, pieces[k])
    ensures FirstRisky(stat, pieces, k) ==> Worst(stat, pieces) == Classify(stat, pieces[k])
    ensures AllSafe(stat, pieces) ==> Worst(stat, pieces) == Judgement(Safe, "")
  {
    ClassifyAll(stat, pieces);
    WorstIsFirstMaximum(stat, pieces);
    hide Classify, IsInsecure, IsRisky, Worst;
    var w := Worst(stat, pieces);
    if w.risk != Safe {
      var j: nat :| j < |pieces| && FirstWorst(stat, pieces, w, j);
      if FirstInsecure(stat, pieces, k) || FirstRisky(stat, pieces, k) {
        assert Rank(Classify(stat, pieces[k]).risk) <= Rank(w.risk);
        assert j == k;
      }
    }
  }

  /** RUNPATH shows the joined paths. It is bad with the reason of the first insecure piece, else a warning with the
      reason of the first risky piece, else informational. */
  lemma RunpathMeaning(stat: string -> Stat, title: string, paths: seq<string>, k: nat)
    requires paths != []
    ensures var pieces, r := Split(Join(paths)), RunpathVerdict(stat, title, paths);
            var shown := title + " [" + Join(paths) + "]";
            && (FirstInsecure(stat, pieces, k) ==>
                  r == Result(shown + " (" +
                              (if pieces[k] == "" then "empty entry = cwd"
                               else if !HasPrefix(pieces[k], "/") then "relative path"
                               else "world-writable") + ")", Bad))
            && (FirstRisky(stat, pieces, k) ==>
                  r == Result(shown + " (" +
                              (if HasOrigin(pieces[k]) then "$ORIGIN-relative"
                               else "dir not found on this host") + ")", Warn))
            && (AllSafe(stat, pieces) ==> r == Result(shown, Info))
  {
    hide IsInsecure, IsRisky, HasOrigin, HasPrefix, Split, Join, Entries, Worst, Classify;
    var pieces := Split(Join(paths));
    EntriesArePieces(paths);
    JoinedEntries(paths);
    WorstOf(stat, pieces, k);
    if k < |pieces| {
      ClassifyExact(stat, pieces[k]);
    }
  }

  /** RPATH is always bad: it shows the joined paths and the same reason, or the prohibition alone. */
  lemma RpathMeaning(stat: string -> Stat, paths: seq<string>, k: nat)
    requires paths != []
    ensures var pieces, r := Split(Join(paths)), RpathStrictVerdict(stat, paths);
            var shown := "RPATH [" + Join(paths) + "] (prohibited";
            && (FirstInsecure(stat, pieces, k) ==>
                  r == Result(shown + "; " +
                              (if pieces[k] == "" then "empty entry = cwd"
                               else if !HasPrefix(pieces[k], "/") then "relative path"
                               else "world-writable") + ")", Bad))
            && (FirstRisky(stat, pieces, k) ==>
                  r == Result(shown + "; " +
                              (if HasOrigin(pieces[k]) then "$ORIGIN-relative"
                               else "dir not found on this host") + ")", Bad))
            && (AllSafe(stat, pieces) ==> r == Result(shown + " by secure-compile specs)", Bad))
  {
    hide IsInsecure, IsRisky, HasOrigin, HasPrefix, Split, Join, Entries, Worst, Classify;
    var pieces := Split(Join(paths));
    EntriesArePieces(paths);
    JoinedEntries(paths);
    WorstOf(stat, pieces, k);
    if k < |pieces| {
      ClassifyExact(stat, pieces[k]);
    }
  }

  predicate SomeInsecure(stat: string -> Stat, pieces: seq<string>) {
    exists i :: 0 <= i < |pieces| && IsInsecure(stat, pieces[i])
  }

  predicate SomeRisky(stat: string -> Stat, pieces: seq<string>) {
    exists i :: 0 <= i < |pieces| && IsRisky(stat, pieces[i])
  }

  /** One of the three cases applies to every list: bad with an insecure piece, a warning with a risky but no insecure
      one, and informational otherwise; without paths both results are good. */
  lemma PathStatusExact(stat: string -> Stat, title: string, paths: seq<string>)
    ensures var pieces := Split(Join(paths));
            RunpathVerdict(stat, title, paths).status ==
            if paths == [] then Good
            else if SomeInsecure(stat, pieces) then Bad
            else if SomeRisky(stat, pieces) then Warn
            else Info
    ensures paths == [] ==> RunpathVerdict(stat, title, paths).value == "No " + title
    ensures paths == [] ==> RpathStrictVerdict(stat, paths) == Result("No RPATH", Good)
  {
    hide IsInsecure, IsRisky, Split, Join, Entries, Worst, Classify;
    if paths != [] {
      var pieces := Split(Join(paths));
      EntriesArePieces(paths);
      ClassifyAll(stat, pieces);
      WorstRisk(stat, pieces);
    }
  }

  /** The two checks judge the strings with tags 15 and 29. */
  lemma PathTags(stat: string -> Stat, f: ElfFile, raw: seq<byte>)
    ensures RpathVerdict(stat, f, raw) == RpathStrictVerdict(stat, DynamicStringsFor(f, raw, 15))
    ensures RunpathCheck(stat, f, raw) == RunpathVerdict(stat, "RUNPATH", DynamicStringsFor(f, raw, 29))
  {
  }
}
