/** RPATH and RUNPATH: every colon-separated entry is judged, the worst one decides. */
module Rpath {
  import opened Bytes
  import opened Strings
  import opened Results
  import opened Elf
  import opened Detectors

  datatype Risk = Safe | Warning | Insecure

  function Rank(r: Risk): nat {
    match r
    case Safe => 0
    case Warning => 1
    case Insecure => 2
  }

  /** What the host file system says about a path. */
  datatype Stat = Missing | Found(isDir: bool, worldWritable: bool)

  datatype Judgement = Judgement(risk: Risk, reason: string)

  function Classify(stat: string -> Stat, entry: string): Judgement {
    if entry == "" then Judgement(Insecure, "empty entry = cwd")
    else if Contains(entry, "$ORIGIN") || Contains(entry, "${ORIGIN}") then Judgement(Warning, "$ORIGIN-relative")
    else if !HasPrefix(entry, "/") then Judgement(Insecure, "relative path")
    else
      match stat(entry)
      case Missing => Judgement(Warning, "dir not found on this host")
      case Found(isDir, worldWritable) =>
        if isDir && worldWritable then Judgement(Insecure, "world-writable") else Judgement(Safe, "")
  }

  /** All entries of all strings, in order. */
  function Entries(paths: seq<string>): (es: seq<string>)
    ensures |es| >= |paths|
  {
    if paths == [] then [] else Entries(paths[..|paths| - 1]) + Split(paths[|paths| - 1])
  }

  /** The worst judgement so far; a later one replaces it only when it is strictly worse. */
  function Worst(stat: string -> Stat, entries: seq<string>): Judgement {
    if entries == [] then Judgement(Safe, "")
    else
      var before := Worst(stat, entries[..|entries| - 1]);
      var j := Classify(stat, entries[|entries| - 1]);
      if Rank(j.risk) > Rank(before.risk) then j else before
  }

  function RunpathVerdict(stat: string -> Stat, title: string, paths: seq<string>): Result {
    if paths == [] then OkResult("No " + title)
    else
      var joined := title + " [" + Join(Entries(paths)) + "]";
      var worst := Worst(stat, Entries(paths));
      match worst.risk
      case Insecure => BadResult(joined + " (" + worst.reason + ")")
      case Warning => WarnResult(joined + " (" + worst.reason + ")")
      case Safe => InfoResult(joined)
  }

  function RpathStrictVerdict(stat: string -> Stat, paths: seq<string>): Result {
    if paths == [] then OkResult("No RPATH")
    else
      var joined := "RPATH [" + Join(Entries(paths)) + "] (prohibited";
      var worst := Worst(stat, Entries(paths));
      if worst.reason == "" then BadResult(joined + " by secure-compile specs)")
      else BadResult(joined + "; " + worst.reason + ")")
  }

  /** The nested loops shared by the two summaries. */
  method Summarize(stat: string -> Stat, paths: seq<string>)
    returns (entries: seq<string>, worst: Risk, worstReason: string)
    ensures entries == Entries(paths)
    ensures Judgement(worst, worstReason) == Worst(stat, entries)
  {
    worst, worstReason, entries := Safe, "", [];
    hide Entries, Worst, Classify, Rank;
    NothingSummarized(stat);
    for i := 0 to |paths|
      invariant entries == Entries(paths[..i])
      invariant Judgement(worst, worstReason) == Worst(stat, entries)
    {
      var parts := Split(paths[i]);
      ghost var start := entries;
      EntriesSnoc(paths[..i], paths[i]);
      assert paths[..i + 1] == paths[..i] + [paths[i]];
      for j := 0 to |parts|
        invariant entries == start + parts[..j]
        invariant Judgement(worst, worstReason) == Worst(stat, entries)
      {
        var e := parts[j];
        WorstSnoc(stat, entries, e);
        assert start + parts[..j + 1] == (start + parts[..j]) + [e];
        entries := entries + [e];
        var judged := Classify(stat, e);
        if Rank(judged.risk) > Rank(worst) {
          worst, worstReason := judged.risk, judged.reason;
        }
      }
      assert parts[..|parts|] == parts;
    }
    assert paths[..|paths|] == paths;
  }

  lemma NothingSummarized(stat: string -> Stat)
    ensures Entries([]) == [] && Worst(stat, []) == Judgement(Safe, "")
  {
  }

  lemma EntriesSnoc(paths: seq<string>, path: string)
    ensures Entries(paths + [path]) == Entries(paths) + Split(path)
  {
    assert (paths + [path])[..|paths|] == paths;
  }

  lemma WorstSnoc(stat: string -> Stat, entries: seq<string>, e: string)
    ensures Worst(stat, entries + [e]) ==
            if Rank(Classify(stat, e).risk) > Rank(Worst(stat, entries).risk) then Classify(stat, e)
            else Worst(stat, entries)
  {
    hide Classify;
    assert (entries + [e])[..|entries|] == entries;
  }

  method SummarizeRunpath(stat: string -> Stat, title: string, paths: seq<string>) returns (r: Result)
    ensures r == RunpathVerdict(stat, title, paths)
  {
    if |paths| == 0 {
      return OkResult("No " + title);
    }
    var entries, worst, worstReason := Summarize(stat, paths);
    var joined := title + " [" + Join(entries) + "]";
    match worst {
      case Insecure => r := BadResult(joined + " (" + worstReason + ")");
      case Warning => r := WarnResult(joined + " (" + worstReason + ")");
      case Safe => r := InfoResult(joined);
    }
  }

  method SummarizeRpathStrict(stat: string -> Stat, paths: seq<string>) returns (r: Result)
    ensures r == RpathStrictVerdict(stat, paths)
  {
    if |paths| == 0 {
      return OkResult("No RPATH");
    }
    var entries, worst, worstReason := Summarize(stat, paths);
    var joined := "RPATH [" + Join(entries) + "] (prohibited";
    if worstReason == "" {
      r := BadResult(joined + " by secure-compile specs)");
    } else {
      r := BadResult(joined + "; " + worstReason + ")");
    }
  }

  function RpathVerdict(stat: string -> Stat, f: ElfFile, raw: seq<byte>): Result {
    RpathStrictVerdict(stat, DynamicStringsFor(f, raw, DT_RPATH))
  }

  function RunpathCheck(stat: string -> Stat, f: ElfFile, raw: seq<byte>): Result {
    RunpathVerdict(stat, "RUNPATH", DynamicStringsFor(f, raw, DT_RUNPATH))
  }

  // ---- What the summaries mean -------------------------------------------

  /** Joining all entries gives the strings joined by colons: nothing is lost by splitting. */
  lemma {:induction false} JoinedEntries(paths: seq<string>)
    ensures Join(Entries(paths)) == Join(paths)
  {
    hide Split, Join, Entries;
    NothingJoined();
    if paths != [] {
      var before, last := paths[..|paths| - 1], paths[|paths| - 1];
      assert paths == before + [last];
      JoinedEntries(before);
      EntriesSnoc(before, last);
      JoinSplit(last);
      JoinOne(last);
      if before == [] {
        assert [] + Split(last) == Split(last);
        assert [] + [last] == [last];
      } else {
        JoinConcat(Entries(before), Split(last));
        JoinConcat(before, [last]);
      }
    } else {
      assert paths == [];
    }
  }

  lemma JoinOne(s: string)
    ensures Join([s]) == s
  {
  }

  lemma NothingJoined()
    ensures Entries([]) == [] && Join([]) == ""
  {
  }

  predicate FirstWorst(stat: string -> Stat, entries: seq<string>, w: Judgement, k: nat)
    requires k < |entries|
  {
    && w == Classify(stat, entries[k])
    && forall i :: 0 <= i < k ==> Rank(Classify(stat, entries[i]).risk) < Rank(w.risk)
  }

  /** The worst judgement bounds all others; unless everything is safe, it is that of the first
      entry attaining it. */
  lemma {:induction false} WorstIsFirstMaximum(stat: string -> Stat, entries: seq<string>)
    ensures var w := Worst(stat, entries);
            && (forall i :: 0 <= i < |entries| ==> Rank(Classify(stat, entries[i]).risk) <= Rank(w.risk))
            && (w.risk == Safe ==> w.reason == "")
            && (w.risk != Safe ==> exists k: nat :: k < |entries| && FirstWorst(stat, entries, w, k))
  {
    if entries != [] {
      var before := entries[..|entries| - 1];
      var w := Worst(stat, entries);
      WorstIsFirstMaximum(stat, before);
      assert forall i :: 0 <= i < |before| ==> before[i] == entries[i];
      if w.risk != Safe {
        if Rank(Classify(stat, entries[|entries| - 1]).risk) > Rank(Worst(stat, before).risk) {
          assert FirstWorst(stat, entries, w, |entries| - 1);
        } else {
          var k: nat :| k < |before| && FirstWorst(stat, before, w, k);
          assert FirstWorst(stat, entries, w, k);
        }
      }
    }
  }

  predicate SomeRisk(stat: string -> Stat, entries: seq<string>, risk: Risk) {
    exists i :: 0 <= i < |entries| && Classify(stat, entries[i]).risk == risk
  }

  /** The worst risk is the highest one that some entry has. */
  lemma WorstRisk(stat: string -> Stat, entries: seq<string>)
    ensures Worst(stat, entries).risk ==
            if SomeRisk(stat, entries, Insecure) then Insecure
            else if SomeRisk(stat, entries, Warning) then Warning
            else Safe
  {
    WorstIsFirstMaximum(stat, entries);
    hide Classify, Worst;
    var w := Worst(stat, entries);
    if w.risk != Safe {
      var k: nat :| k < |entries| && FirstWorst(stat, entries, w, k);
      assert SomeRisk(stat, entries, w.risk);
    }
  }

  /** A recorded RUNPATH is bad exactly with an insecure entry, a warning exactly with a risky but
      no insecure one; both summaries show the strings as recorded. */
  lemma SummariesMeaning(stat: string -> Stat, title: string, paths: seq<string>)
    requires paths != []
    ensures RunpathVerdict(stat, title, paths).status ==
            if SomeRisk(stat, Entries(paths), Insecure) then Bad
            else if SomeRisk(stat, Entries(paths), Warning) then Warn
            else Info
    ensures HasPrefix(RunpathVerdict(stat, title, paths).value, title + " [" + Join(paths) + "]")
    ensures HasPrefix(RpathStrictVerdict(stat, paths).value, "RPATH [" + Join(paths) + "] (prohibited")
  {
    hide Entries, Worst, Join, SomeRisk;
    WorstRisk(stat, Entries(paths));
    JoinedEntries(paths);
  }

  lemma {:induction false} WorstGrows(stat: string -> Stat, a: seq<string>, b: seq<string>)
    ensures Rank(Worst(stat, a + b).risk) >= Rank(Worst(stat, a).risk)
    decreases |b|
  {
    if b == [] {
      assert a + b == a;
    } else {
      var last := |b| - 1;
      assert (a + b)[..|a + b| - 1] == a + b[..last];
      WorstGrows(stat, a, b[..last]);
    }
  }

  lemma {:induction false} EntriesConcat(a: seq<string>, b: seq<string>)
    ensures Entries(a + b) == Entries(a) + Entries(b)
    decreases |b|
  {
    NothingJoined();
    hide Entries, Split;
    if b == [] {
      assert a + b == a;
    } else {
      var before, last := b[..|b| - 1], b[|b| - 1];
      assert b == before + [last];
      assert a + b == (a + before) + [last];
      EntriesConcat(a, before);
      EntriesSnoc(a + before, last);
      EntriesSnoc(before, last);
    }
  }

  function Severity(s: Status): nat {
    match s
    case Bad => 3
    case Warn => 2
    case Info => 1
    case _ => 0
  }

  /** Adding strings never lowers the severity of either summary; the strict one is bad for
      every non-empty list, whatever the file system says. */
  lemma SummariesMonotone(stat: string -> Stat, title: string, a: seq<string>, b: seq<string>)
    ensures Severity(RunpathVerdict(stat, title, a + b).status) >= Severity(RunpathVerdict(stat, title, a).status)
    ensures Severity(RpathStrictVerdict(stat, a + b).status) >= Severity(RpathStrictVerdict(stat, a).status)
    ensures RpathStrictVerdict(stat, a).status == Bad <==> a != []
  {
    hide Entries, Worst, Join;
    EntriesConcat(a, b);
    WorstGrows(stat, Entries(a), Entries(b));
  }

  // ---- What the shown text tells -----------------------------------------

  /** Every reason that a result can end with. */
  predicate IsReason(r: string) {
    r in {"empty entry = cwd", "$ORIGIN-relative", "relative path", "dir not found on this host", "world-writable",
          "by secure-compile specs"}
  }

  /** The reason with these last two characters. */
  function ReasonEnding(last: char, previous: char): string {
    if last == 'd' then "empty entry = cwd"
    else if last == 'h' then "relative path"
    else if last == 't' then "dir not found on this host"
    else if last == 's' then "by secure-compile specs"
    else if previous == 'v' then "$ORIGIN-relative"
    else "world-writable"
  }

  lemma ReasonsTold(r: string)
    requires IsReason(r)
    ensures |r| >= 2 && ReasonEnding(r[|r| - 1], r[|r| - 2]) == r
  {
  }

  /** A text that ends with a reason and a parenthesis tells both what comes before and the reason. */
  lemma EndTells(p: string, r: string, q: string, s: string)
    requires IsReason(r) && IsReason(s) && p + r + ")" == q + s + ")"
    ensures p == q && r == s
  {
    ReasonsTold(r);
    ReasonsTold(s);
    hide IsReason, ReasonEnding;
    var t, u := p + r + ")", q + s + ")";
    assert t[|t| - 2] == r[|r| - 1] && t[|t| - 3] == r[|r| - 2];
    assert u[|u| - 2] == s[|s| - 1] && u[|u| - 3] == s[|s| - 2];
    assert p == t[..|t| - 1 - |r|] && q == u[..|u| - 1 - |s|];
  }

  lemma {:induction false} WorstReason(stat: string -> Stat, entries: seq<string>)
    ensures var w := Worst(stat, entries);
            if w.risk == Safe then w.reason == "" else IsReason(w.reason) && w.reason != ""
  {
    if entries != [] {
      WorstReason(stat, entries[..|entries| - 1]);
      ClassifyReason(stat, entries[|entries| - 1]);
      hide Classify, IsReason;
    }
  }

  lemma ClassifyReason(stat: string -> Stat, entry: string)
    ensures var j := Classify(stat, entry);
            if j.risk == Safe then j.reason == "" else IsReason(j.reason) && j.reason != ""
  {
    hide Contains, HasPrefix;
  }

  /** A result in two parts: what stands before the closing reason, and that reason. */
  function StrictFront(joined: string, reason: string): string {
    "RPATH [" + joined + (if reason == "" then "] (prohibited " else "] (prohibited; ")
  }

  function StrictReason(reason: string): string {
    if reason == "" then "by secure-compile specs" else reason
  }

  lemma StrictParts(stat: string -> Stat, paths: seq<string>)
    requires paths != []
    ensures var reason := Worst(stat, Entries(paths)).reason;
            && IsReason(StrictReason(reason))
            && RpathStrictVerdict(stat, paths).value == StrictFront(Join(paths), reason) + StrictReason(reason) + ")"
  {
    hide Entries, Worst, Join, IsReason, StrictFront;
    WorstReason(stat, Entries(paths));
    JoinedEntries(paths);
    StrictText(Join(paths), Worst(stat, Entries(paths)).reason);
    SpecsReason();
  }

  lemma SpecsReason()
    ensures IsReason("by secure-compile specs")
  {
  }

  lemma StrictText(joined: string, reason: string)
    ensures reason == "" ==>
              StrictFront(joined, reason) + StrictReason(reason) + ")" ==
              "RPATH [" + joined + "] (prohibited" + " by secure-compile specs)"
    ensures reason != "" ==>
              StrictFront(joined, reason) + StrictReason(reason) + ")" ==
              "RPATH [" + joined + "] (prohibited" + "; " + reason + ")"
  {
    if reason == "" {
      Regrouped("RPATH [" + joined, "] (prohibited", " ", "by secure-compile specs", ")");
    } else {
      Regrouped("RPATH [" + joined, "] (prohibited", "; ", reason, ")");
    }
  }

  lemma Regrouped(a: string, b: string, c: string, d: string, e: string)
    ensures a + (b + c) + d + e == a + b + c + d + e == a + b + (c + d + e)
  {
  }

  lemma BracketTells(title: string, x: string, tail: string, y: string)
    requires title + x + tail == title + y + tail
    ensures x == y
  {
    var t, u := title + x + tail, title + y + tail;
    assert x == t[|title|..|title| + |x|] && y == u[|title|..|title| + |y|];
  }

  /** Two equal RPATH results come from paths that join to the same text. */
  lemma StrictShowsPaths(stat: string -> Stat, a: seq<string>, b: seq<string>)
    requires a != [] && b != [] && RpathStrictVerdict(stat, a) == RpathStrictVerdict(stat, b)
    ensures Join(a) == Join(b)
  {
    StrictParts(stat, a);
    StrictParts(stat, b);
    hide RpathStrictVerdict, Entries, Worst, Join, IsReason;
    var r, s := Worst(stat, Entries(a)).reason, Worst(stat, Entries(b)).reason;
    EndTells(StrictFront(Join(a), r), StrictReason(r), StrictFront(Join(b), s), StrictReason(s));
    if (r == "") != (s == "") {
      StrictFrontsDiffer(Join(a), r, Join(b), s);
    } else {
      BracketTells("RPATH [", Join(a), if r == "" then "] (prohibited " else "] (prohibited; ", Join(b));
    }
  }

  lemma StrictFrontsDiffer(x: string, r: string, y: string, s: string)
    requires (r == "") != (s == "")
    ensures StrictFront(x, r) != StrictFront(y, s)
  {
    var t, u := StrictFront(x, r), StrictFront(y, s);
    assert t[|t| - 2] == (if r == "" then 'd' else ';') && u[|u| - 2] == (if s == "" then 'd' else ';');
  }

  /** Two equal RUNPATH results do too. */
  lemma RunpathShowsPaths(stat: string -> Stat, title: string, a: seq<string>, b: seq<string>)
    requires a != [] && b != [] && RunpathVerdict(stat, title, a) == RunpathVerdict(stat, title, b)
    ensures Join(a) == Join(b)
  {
    WorstReason(stat, Entries(a));
    WorstReason(stat, Entries(b));
    JoinedEntries(a);
    JoinedEntries(b);
    hide Entries, Worst, Join, IsReason;
    var v, w := Worst(stat, Entries(a)), Worst(stat, Entries(b));
    assert v.risk == w.risk;
    RunpathText(title, Join(a), v.reason);
    RunpathText(title, Join(b), w.reason);
    if v.risk == Safe {
      BracketTells(title + " [", Join(a), "]", Join(b));
    } else {
      EndTells(title + " [" + Join(a) + "] (", v.reason, title + " [" + Join(b) + "] (", w.reason);
      BracketTells(title + " [", Join(a), "] (", Join(b));
    }
  }

  lemma RunpathText(title: string, joined: string, reason: string)
    ensures title + " [" + joined + "]" + " (" + reason + ")" == title + " [" + joined + "] (" + reason + ")"
  {
  }
}
