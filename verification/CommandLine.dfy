/** Flags may stand before or after the targets: the argument rewriter against Go's flag parser,
    which stops at the first positional argument. */
module CommandLine {
  import opened Strings

  datatype FlagKind = BoolFlag | ValueFlag

  type FlagSet = map<string, FlagKind>

  // ---- The rewriter ------------------------------------------------------

  predicate IsFlagToken(a: string) {
    HasPrefix(a, "-") && a != "-"
  }

  /** The token without its leading dashes. */
  function TrimDashes(a: string): string {
    if a != "" && a[0] == '-' then TrimDashes(a[1..]) else a
  }

  /** The rewriter lets this token take the next one as its value. */
  predicate WantsValue(fs: FlagSet, a: string) {
    var name := TrimDashes(a);
    '=' !in name && name in fs && fs[name] == ValueFlag
  }

  /** How many arguments the flag at the front occupies. */
  function Width(fs: FlagSet, args: seq<string>): (w: nat)
    requires args != []
    ensures 1 <= w <= |args|
  {
    if WantsValue(fs, args[0]) && |args| > 1 then 2 else 1
  }

  /** The flags with their values, in order. */
  function Flags(fs: FlagSet, args: seq<string>): seq<string> {
    if args == [] || args[0] == "--" then []
    else if IsFlagToken(args[0]) then
      var w := Width(fs, args);
      args[..w] + Flags(fs, args[w..])
    else Flags(fs, args[1..])
  }

  /** The positional arguments, in order; everything after an acting `--` is one. */
  function Positionals(fs: FlagSet, args: seq<string>): seq<string> {
    if args == [] then []
    else if args[0] == "--" then args[1..]
    else if IsFlagToken(args[0]) then Positionals(fs, args[Width(fs, args)..])
    else [args[0]] + Positionals(fs, args[1..])
  }

  function Reordered(fs: FlagSet, args: seq<string>): seq<string> {
    Flags(fs, args) + Positionals(fs, args)
  }

  /** `flags` and `positional` are what the arguments before `i` contribute. */
  ghost predicate Scanned(fs: FlagSet, args: seq<string>, i: nat, flags: seq<string>, positional: seq<string>)
    requires i <= |args|
  {
    flags + Flags(fs, args[i..]) == Flags(fs, args) && positional + Positionals(fs, args[i..]) == Positionals(fs, args)
  }

  lemma FlagScanned(fs: FlagSet, args: seq<string>, i: nat, w: nat, flags: seq<string>, positional: seq<string>)
    requires i < |args| && args[i] != "--" && IsFlagToken(args[i]) && w == Width(fs, args[i..])
    requires Scanned(fs, args, i, flags, positional)
    ensures Scanned(fs, args, i + w, flags + args[i..i + w], positional)
  {
    hide Width, IsFlagToken;
    assert args[i..][..w] == args[i..i + w] && args[i..][w..] == args[i + w..];
    assert flags + (args[i..i + w] + Flags(fs, args[i + w..])) == (flags + args[i..i + w]) + Flags(fs, args[i + w..]);
  }

  lemma PositionalScanned(fs: FlagSet, args: seq<string>, i: nat, flags: seq<string>, positional: seq<string>)
    requires i < |args| && args[i] != "--" && !IsFlagToken(args[i])
    requires Scanned(fs, args, i, flags, positional)
    ensures Scanned(fs, args, i + 1, flags, positional + [args[i]])
  {
    hide Width, IsFlagToken;
    assert args[i..][1..] == args[i + 1..];
    var rest := Positionals(fs, args[i + 1..]);
    assert positional + ([args[i]] + rest) == (positional + [args[i]]) + rest;
  }

  lemma ScanEnds(fs: FlagSet, args: seq<string>, i: nat, flags: seq<string>, positional: seq<string>)
    requires i <= |args| && Scanned(fs, args, i, flags, positional)
    ensures i == |args| ==> flags + positional == Reordered(fs, args)
    ensures i < |args| && args[i] == "--" ==> flags + (positional + args[i + 1..]) == Reordered(fs, args)
  {
    if i < |args| {
      assert args[i..][1..] == args[i + 1..];
    }
  }

  /** The width of the flag at `i`, as the rewriter's branches find it. */
  lemma WidthAt(fs: FlagSet, args: seq<string>, i: nat)
    requires i < |args|
    ensures Width(fs, args[i..]) ==
            var name := TrimDashes(args[i]);
            if '=' !in name && name in fs && fs[name] == ValueFlag && i + 1 < |args| then 2 else 1
  {
    hide TrimDashes;
  }

  /** The flag branch of the loop: the token, and the next one when the flag takes a value. */
  method CollectFlag(fs: FlagSet, args: seq<string>, i0: nat, flags0: seq<string>, ghost positional: seq<string>)
    returns (flags: seq<string>, i: nat)
    requires i0 < |args| && args[i0] != "--" && IsFlagToken(args[i0])
    requires Scanned(fs, args, i0, flags0, positional)
    ensures i0 < i <= |args| && Scanned(fs, args, i, flags, positional)
  {
    FlagScanned(fs, args, i0, Width(fs, args[i0..]), flags0, positional);
    WidthAt(fs, args, i0);
    hide Scanned, IsFlagToken, TrimDashes, Width, WantsValue;
    flags, i := flags0, i0;
    var a := args[i];
    assert args[i..i + 1] == [a];
    var name := TrimDashes(a);
    if '=' in name {
      return flags + [a], i + 1;
    }
    flags := flags + [a];
    if name !in fs {
      return flags, i + 1;
    }
    if fs[name] != BoolFlag {
      if i + 1 < |args| {
        assert args[i..i + 2] == [a] + [args[i + 1]];
        flags := flags + [args[i + 1]];
        i := i + 1;
      }
    }
    i := i + 1;
  }

  method ReorderArgs(fs: FlagSet, args: seq<string>) returns (out: seq<string>)
    ensures out == Reordered(fs, args)
  {
    var flags, positional: seq<string> := [], [];
    var i := 0;
    assert Scanned(fs, args, 0, [], []) by {
      assert args[0..] == args;
    }
    hide Scanned, Flags, Positionals, Reordered;
    while i < |args|
      invariant 0 <= i <= |args|
      invariant Scanned(fs, args, i, flags, positional)
    {
      var a := args[i];
      if a == "--" {
        ScanEnds(fs, args, i, flags, positional);
        positional := positional + args[i + 1..];
        return flags + positional;
      } else if HasPrefix(a, "-") && a != "-" {
        flags, i := CollectFlag(fs, args, i, flags, positional);
      } else {
        PositionalScanned(fs, args, i, flags, positional);
        positional := positional + [a];
        i := i + 1;
      }
    }
    ScanEnds(fs, args, i, flags, positional);
    out := flags + positional;
  }

  // ---- Go's flag parser --------------------------------------------------

  datatype Assignment = Assignment(name: string, value: string)

  datatype Outcome = Parsed(settings: seq<Assignment>, rest: seq<string>) | Failed(token: string)

  /** What the first argument is to the parser. */
  datatype Step =
    | NotFlag
    | Terminator
    | BadFlag
    | MissingValue(needy: string)
    | Assign(name: string, value: string, width: nat)

  predicate ValidBool(v: string) {
    v in {"1", "t", "T", "true", "TRUE", "True", "0", "f", "F", "false", "FALSE", "False"}
  }

  /** The flag name behind one or two dashes. */
  function NameOf(a: string): string
    requires |a| >= 2
  {
    if a[1] == '-' then a[2..] else a[1..]
  }

  function StepOf(fs: FlagSet, args: seq<string>): (s: Step)
    requires args != []
    ensures s.Assign? ==> 1 <= s.width <= |args|
  {
    var a := args[0];
    if |a| < 2 || a[0] != '-' then NotFlag
    else if a == "--" then Terminator
    else
      var name := NameOf(a);
      if name == "" || name[0] == '-' || name[0] == '=' then BadFlag
      else
        var eq := IndexOf(name, '=');
        var key := name[..eq];
        if key !in fs then BadFlag
        else if eq < |name| then
          if fs[key] == BoolFlag && !ValidBool(name[eq + 1..]) then BadFlag
          else Assign(key, name[eq + 1..], 1)
        else if fs[key] == BoolFlag then Assign(key, "true", 1)
        else if |args| > 1 then Assign(key, args[1], 2)
        else MissingValue(key)
  }

  function Prepend(a: seq<Assignment>, o: Outcome): Outcome {
    match o
    case Parsed(settings, rest) => Parsed(a + settings, rest)
    case Failed(t) => o
  }

  /** Go's rule: parsing stops at the first argument that is not a flag, or after `--`. */
  function GoParse(fs: FlagSet, args: seq<string>): Outcome
    decreases |args|
  {
    if args == [] then Parsed([], [])
    else
      match StepOf(fs, args)
      case NotFlag => Parsed([], args)
      case Terminator => Parsed([], args[1..])
      case BadFlag => Failed(args[0])
      case MissingValue(_) => Failed(args[0])
      case Assign(n, v, w) => Prepend([Assignment(n, v)], GoParse(fs, args[w..]))
  }

  /** The promised meaning: flags count wherever they stand, up to an acting `--`. */
  function Interleaved(fs: FlagSet, args: seq<string>): Outcome
    decreases |args|
  {
    if args == [] then Parsed([], [])
    else
      match StepOf(fs, args)
      case NotFlag =>
        (match Interleaved(fs, args[1..])
         case Parsed(settings, rest) => Parsed(settings, [args[0]] + rest)
         case Failed(t) => Failed(t))
      case Terminator => Parsed([], args[1..])
      case BadFlag => Failed(args[0])
      case MissingValue(_) => Failed(args[0])
      case Assign(n, v, w) => Prepend([Assignment(n, v)], Interleaved(fs, args[w..]))
  }

  // ---- Scanning facts ----------------------------------------------------

  lemma {:induction false} TrimsToName(a: string)
    requires |a| >= 2 && a[0] == '-' && a != "--"
    requires NameOf(a) != "" && NameOf(a)[0] != '-'
    ensures TrimDashes(a) == NameOf(a)
  {
    assert TrimDashes(a) == TrimDashes(a[1..]);
    if a[1] == '-' {
      assert a[1..][1..] == a[2..];
    }
  }

  /** Parser and rewriter agree on what is a flag and on how many arguments it takes. */
  lemma StepFacts(fs: FlagSet, args: seq<string>)
    requires args != []
    ensures StepOf(fs, args).NotFlag? <==> !IsFlagToken(args[0])
    ensures StepOf(fs, args).Terminator? <==> args[0] == "--"
    ensures StepOf(fs, args).Assign? ==> StepOf(fs, args).width == Width(fs, args)
    ensures StepOf(fs, args).MissingValue? ==> |args| == 1 && WantsValue(fs, args[0])
  {
    var a := args[0];
    if |a| >= 2 && a[0] == '-' && a != "--" && NameOf(a) != "" && NameOf(a)[0] != '-' {
      TrimsToName(a);
      var name := NameOf(a);
      var eq := IndexOf(name, '=');
      assert name[..|name|] == name;
    }
  }

  /** Some token in flag position is malformed, undeclared, or sets a boolean to a non-boolean. */
  predicate SomeBadFlag(fs: FlagSet, args: seq<string>) {
    args != [] && args[0] != "--" &&
    if IsFlagToken(args[0]) then StepOf(fs, args).BadFlag? || SomeBadFlag(fs, args[Width(fs, args)..])
    else SomeBadFlag(fs, args[1..])
  }

  /** The last argument is a value flag without its value. */
  predicate Dangling(fs: FlagSet, args: seq<string>) {
    args != [] && args[0] != "--" &&
    if IsFlagToken(args[0]) then StepOf(fs, args).MissingValue? || Dangling(fs, args[Width(fs, args)..])
    else Dangling(fs, args[1..])
  }

  /** The scan reaches a `--` that ends the flags. */
  predicate Acting(fs: FlagSet, args: seq<string>) {
    args != [] &&
    if args[0] == "--" then true
    else if IsFlagToken(args[0]) then Acting(fs, args[Width(fs, args)..])
    else Acting(fs, args[1..])
  }

  function FirstBad(fs: FlagSet, args: seq<string>): string
    requires SomeBadFlag(fs, args)
  {
    if IsFlagToken(args[0]) then
      if StepOf(fs, args).BadFlag? then args[0] else FirstBad(fs, args[Width(fs, args)..])
    else FirstBad(fs, args[1..])
  }

  /** The dangling flag and the name it sets. */
  function Needy(fs: FlagSet, args: seq<string>): (string, string)
    requires Dangling(fs, args)
  {
    if IsFlagToken(args[0]) then
      if StepOf(fs, args).MissingValue? then (args[0], StepOf(fs, args).needy) else Needy(fs, args[Width(fs, args)..])
    else Needy(fs, args[1..])
  }

  /** The assignments of the flags, in order. */
  function Assigned(fs: FlagSet, args: seq<string>): seq<Assignment> {
    if args == [] || args[0] == "--" then []
    else if IsFlagToken(args[0]) then
      var s := StepOf(fs, args);
      (if s.Assign? then [Assignment(s.name, s.value)] else []) + Assigned(fs, args[Width(fs, args)..])
    else Assigned(fs, args[1..])
  }

  // ---- What each reading yields ------------------------------------------

  /** The full scan, in terms of its parts. */
  lemma {:induction false} InterleavedParts(fs: FlagSet, args: seq<string>)
    ensures Interleaved(fs, args) ==
            if SomeBadFlag(fs, args) then Failed(FirstBad(fs, args))
            else if Dangling(fs, args) then Failed(Needy(fs, args).0)
            else Parsed(Assigned(fs, args), Positionals(fs, args))
    decreases |args|
  {
    if args != [] {
      StepFacts(fs, args);
      hide StepOf, IsFlagToken, Width;
      if args[0] == "--" {
      } else if IsFlagToken(args[0]) {
        InterleavedParts(fs, args[Width(fs, args)..]);
      } else {
        InterleavedParts(fs, args[1..]);
      }
    }
  }

  /** What the parser makes of the collected flags followed by any tail. */
  function FlagsThen(fs: FlagSet, args: seq<string>, tail: seq<string>): Outcome {
    if SomeBadFlag(fs, args) then Failed(FirstBad(fs, args))
    else if Dangling(fs, args) then
      if tail == [] then Failed(Needy(fs, args).0)
      else Prepend(Assigned(fs, args) + [Assignment(Needy(fs, args).1, tail[0])], GoParse(fs, tail[1..]))
    else Prepend(Assigned(fs, args), GoParse(fs, tail))
  }

  lemma PrependTwice(a: seq<Assignment>, b: seq<Assignment>, o: Outcome)
    ensures Prepend(a, Prepend(b, o)) == Prepend(a + b, o)
  {
    if o.Parsed? {
      assert a + (b + o.settings) == (a + b) + o.settings;
    }
  }

  lemma PrependNothing(o: Outcome)
    ensures Prepend([], o) == o
  {
    if o.Parsed? {
      assert [] + o.settings == o.settings;
    }
  }

  /** A complete flag at the front parses the same whatever comes after it. */
  lemma StepLocal(fs: FlagSet, args: seq<string>, more: seq<string>)
    requires args != []
    requires StepOf(fs, args).Assign? || StepOf(fs, args).BadFlag?
    ensures var w := Width(fs, args);
            StepOf(fs, args[..w] + more) == StepOf(fs, args)
  {
    StepFacts(fs, args);
    var front := args[..Width(fs, args)] + more;
    assert front[0] == args[0];
    if |args| > 1 && Width(fs, args) == 2 {
      assert front[1] == args[1];
    }
  }

  /** A flag that misses its value takes the next argument. */
  lemma StepCompleted(fs: FlagSet, a: string, tail: seq<string>)
    requires StepOf(fs, [a]).MissingValue? && tail != []
    ensures StepOf(fs, [a] + tail) == Assign(StepOf(fs, [a]).needy, tail[0], 2)
  {
  }

  lemma {:induction false} ParseFlagsThen(fs: FlagSet, args: seq<string>, tail: seq<string>)
    ensures GoParse(fs, Flags(fs, args) + tail) == FlagsThen(fs, args, tail)
    decreases |args|
  {
    if args == [] || args[0] == "--" {
      assert [] + tail == tail;
      PrependNothing(GoParse(fs, tail));
    } else if !IsFlagToken(args[0]) {
      ParseFlagsThen(fs, args[1..], tail);
    } else {
      ParseOneFlagThen(fs, args, tail);
    }
  }

  lemma ParseBadFlagThen(fs: FlagSet, args: seq<string>, more: seq<string>)
    requires args != [] && StepOf(fs, args).BadFlag?
    ensures GoParse(fs, args[..Width(fs, args)] + more) == Failed(args[0])
  {
    StepLocal(fs, args, more);
    hide StepOf, Width;
  }

  lemma ParseNeedyThen(fs: FlagSet, args: seq<string>, tail: seq<string>)
    requires args != [] && StepOf(fs, args).MissingValue?
    ensures |args| == 1
    ensures GoParse(fs, args + tail) ==
            if tail == [] then Failed(args[0])
            else Prepend([Assignment(StepOf(fs, args).needy, tail[0])], GoParse(fs, tail[1..]))
  {
    StepFacts(fs, args);
    if tail == [] {
      assert args + tail == args;
    } else {
      assert args == [args[0]];
      StepCompleted(fs, args[0], tail);
      assert (args + tail)[2..] == tail[1..];
    }
    hide StepOf, Width;
  }

  lemma ParseAssignThen(fs: FlagSet, args: seq<string>, more: seq<string>)
    requires args != [] && StepOf(fs, args).Assign?
    ensures var s := StepOf(fs, args);
            GoParse(fs, args[..Width(fs, args)] + more) == Prepend([Assignment(s.name, s.value)], GoParse(fs, more))
  {
    StepFacts(fs, args);
    StepLocal(fs, args, more);
    assert (args[..Width(fs, args)] + more)[Width(fs, args)..] == more;
    hide StepOf, Width;
  }

  lemma {:induction false} ParseOneFlagThen(fs: FlagSet, args: seq<string>, tail: seq<string>)
    requires args != [] && args[0] != "--" && IsFlagToken(args[0])
    ensures GoParse(fs, Flags(fs, args) + tail) == FlagsThen(fs, args, tail)
    decreases |args|, 0
  {
    hide IsFlagToken, Width, WantsValue, StepOf, GoParse;
    var w := Width(fs, args);
    var rest := args[w..];
    var more := Flags(fs, rest) + tail;
    assert Flags(fs, args) + tail == args[..w] + more;
    StepFacts(fs, args);
    NeedyWidth(fs, args);
    var s := StepOf(fs, args);
    if s.BadFlag? {
      ParseBadFlagThen(fs, args, more);
    } else if s.MissingValue? {
      ParseNeedyThen(fs, args, tail);
      assert rest == [] && args[..w] == args && more == tail;
      FlagsThenNeedy(fs, args, tail);
    } else {
      ParseAssignThen(fs, args, more);
      ParseFlagsThen(fs, rest, tail);
      FlagsThenStep(fs, args, tail);
    }
  }

  lemma NeedyWidth(fs: FlagSet, args: seq<string>)
    requires args != []
    ensures StepOf(fs, args).MissingValue? ==> Width(fs, args) == |args|
  {
    StepFacts(fs, args);
  }

  lemma FlagsThenNeedy(fs: FlagSet, args: seq<string>, tail: seq<string>)
    requires |args| == 1 && args[0] != "--" && IsFlagToken(args[0]) && StepOf(fs, args).MissingValue?
    ensures FlagsThen(fs, args, tail) ==
            if tail == [] then Failed(args[0])
            else Prepend([Assignment(StepOf(fs, args).needy, tail[0])], GoParse(fs, tail[1..]))
  {
    hide IsFlagToken, StepOf, GoParse;
    assert args[Width(fs, args)..] == [];
    assert Assigned(fs, args) == [];
    assert Dangling(fs, args) && !SomeBadFlag(fs, args);
    assert Needy(fs, args) == (args[0], StepOf(fs, args).needy);
    if tail != [] {
      var last := [Assignment(StepOf(fs, args).needy, tail[0])];
      assert [] + last == last;
    }
  }

  /** One assignment in front is one assignment more. */
  lemma FlagsThenStep(fs: FlagSet, args: seq<string>, tail: seq<string>)
    requires args != [] && args[0] != "--" && IsFlagToken(args[0]) && StepOf(fs, args).Assign?
    ensures var s := StepOf(fs, args);
            FlagsThen(fs, args, tail) ==
            Prepend([Assignment(s.name, s.value)], FlagsThen(fs, args[Width(fs, args)..], tail))
  {
    hide IsFlagToken, Width, StepOf, GoParse;
    var s := StepOf(fs, args);
    var rest := args[Width(fs, args)..];
    var one := [Assignment(s.name, s.value)];
    assert Assigned(fs, args) == one + Assigned(fs, rest);
    PrependTwice(one, Assigned(fs, rest), GoParse(fs, tail));
    if Dangling(fs, rest) && tail != [] {
      var last := [Assignment(Needy(fs, rest).1, tail[0])];
      PrependTwice(one, Assigned(fs, rest) + last, GoParse(fs, tail[1..]));
      assert one + (Assigned(fs, rest) + last) == one + Assigned(fs, rest) + last;
    }
  }

  // ---- The rewriter keeps the meaning ------------------------------------

  /** No flag of the input can go astray: a flag is bad anyway, or a last value flag finds no
      positional to take, or the first positional does not look like a flag. */
  predicate ReorderSafe(fs: FlagSet, args: seq<string>) {
    var positionals := Positionals(fs, args);
    SomeBadFlag(fs, args) || positionals == [] || (!Dangling(fs, args) && !IsFlagToken(positionals[0]))
  }

  /** Without an acting `--`, no positional looks like a flag. */
  lemma {:induction false} PositionalsPlain(fs: FlagSet, args: seq<string>)
    requires !Acting(fs, args)
    ensures forall p :: p in Positionals(fs, args) ==> !IsFlagToken(p)
    decreases |args|
  {
    if args != [] {
      hide IsFlagToken, Width;
      if IsFlagToken(args[0]) {
        PositionalsPlain(fs, args[Width(fs, args)..]);
      } else {
        PositionalsPlain(fs, args[1..]);
      }
    }
  }

  /** A dangling flag is the last argument, so no `--` acts. */
  lemma {:induction false} DanglingNotActing(fs: FlagSet, args: seq<string>)
    requires Dangling(fs, args)
    ensures !Acting(fs, args)
    decreases |args|
  {
    StepFacts(fs, args);
    hide StepOf, IsFlagToken;
    if IsFlagToken(args[0]) {
      if !StepOf(fs, args).MissingValue? {
        DanglingNotActing(fs, args[Width(fs, args)..]);
      }
    } else {
      DanglingNotActing(fs, args[1..]);
    }
  }

  /** The parser returns a list untouched exactly when it is empty or starts with no flag. */
  lemma ParseUntouched(fs: FlagSet, p: seq<string>)
    ensures GoParse(fs, p) == Parsed([], p) <==> p == [] || !IsFlagToken(p[0])
  {
    if p != [] {
      StepFacts(fs, p);
      hide StepOf, IsFlagToken;
      if StepOf(fs, p).Assign? {
        var o := GoParse(fs, p[StepOf(fs, p).width..]);
        assert Prepend([Assignment(StepOf(fs, p).name, StepOf(fs, p).value)], o) != Parsed([], p);
      }
    }
  }

  /** Parsing the rewritten list under Go's rule gives what the full scan of the original gives,
      if and only if ReorderSafe holds. */
  lemma ReorderExact(fs: FlagSet, args: seq<string>)
    ensures GoParse(fs, Reordered(fs, args)) == Interleaved(fs, args) <==> ReorderSafe(fs, args)
  {
    var p := Positionals(fs, args);
    InterleavedParts(fs, args);
    ParseFlagsThen(fs, args, p);
    hide IsFlagToken, Interleaved, Positionals;
    if SomeBadFlag(fs, args) {
    } else if Dangling(fs, args) {
      DanglingNotActing(fs, args);
      PositionalsPlain(fs, args);
      if p != [] {
        assert forall q :: q in p[1..] ==> q in p;
        ParseUntouched(fs, p[1..]);
      }
    } else {
      ParseUntouched(fs, p);
      UntouchedPrepended(Assigned(fs, args), GoParse(fs, p), p);
    }
  }

  lemma UntouchedPrepended(a: seq<Assignment>, o: Outcome, p: seq<string>)
    ensures Prepend(a, o) == Parsed(a, p) <==> o == Parsed([], p)
  {
    if o.Parsed? {
      assert a + [] == a;
      if a + o.settings == a {
        assert |o.settings| == 0;
      }
    }
  }

  /** A value flag left last takes the first positional instead of failing. */
  lemma DanglingTakesPositional()
    ensures var fs: FlagSet := map["format" := ValueFlag];
            && Interleaved(fs, ["x", "-format"]) == Failed("-format")
            && GoParse(fs, Reordered(fs, ["x", "-format"])) == Parsed([Assignment("format", "x")], [])
  {
    var fs: FlagSet := map["format" := ValueFlag];
    var args, t := ["x", "-format"], ["-format"];
    hide StepOf, IsFlagToken, WantsValue;
    FormatMissesValue(fs);
    FormatTokens();
    StepFacts(fs, args);
    StepFacts(fs, t);
    StepCompleted(fs, "-format", ["x"]);
    assert args[1..] == t && t[..1] == t && t[1..] == [];
    assert Flags(fs, t) == t && Positionals(fs, t) == [];
    assert Interleaved(fs, t) == Failed("-format");
    assert Reordered(fs, args) == t + ["x"];
    assert (t + ["x"])[2..] == [];
  }

  lemma FormatMissesValue(fs: FlagSet)
    requires fs == map["format" := ValueFlag]
    ensures StepOf(fs, ["-format"]) == MissingValue("format")
  {
    assert NameOf("-format") == "format";
    assert IndexOf("format", '=') == 6 by {
      assert '=' !in "format";
    }
    assert "format"[..6] == "format";
  }

  lemma FormatTokens()
    ensures IsFlagToken("-format") && !IsFlagToken("x") && "-format" != "--" && "x" != "--"
  {
  }

  /** An acting `--` is dropped, so what it protected is no longer protected. */
  lemma TerminatorDropped(fs: FlagSet)
    requires "x" !in fs
    ensures Interleaved(fs, ["--", "-x"]) == Parsed([], ["-x"])
    ensures Reordered(fs, ["--", "-x"]) == ["-x"] && GoParse(fs, ["-x"]) == Failed("-x")
  {
    var args := ["--", "-x"];
    assert args[1..] == ["-x"];
    assert NameOf("-x") == "x" && IndexOf("x", '=') == 1 && "x"[..1] == "x";
    assert StepOf(fs, args) == Terminator && StepOf(fs, ["-x"]) == BadFlag;
    assert Flags(fs, args) == [] && Positionals(fs, args) == ["-x"];
  }

  // ---- Conservation ------------------------------------------------------

  /** `s` can be obtained from `t` by leaving elements out. */
  predicate IsSubsequence(s: seq<string>, t: seq<string>) {
    if s == [] then true
    else if t == [] then false
    else if s[0] == t[0] && IsSubsequence(s[1..], t[1..]) then true
    else IsSubsequence(s, t[1..])
  }

  lemma {:induction false} SubsequenceAppend(a: seq<string>, s: seq<string>, t: seq<string>)
    requires IsSubsequence(s, t)
    ensures IsSubsequence(a + s, a + t)
  {
    if a == [] {
      assert a + s == s && a + t == t;
    } else {
      assert (a + s)[1..] == a[1..] + s && (a + t)[1..] == a[1..] + t;
      SubsequenceAppend(a[1..], s, t);
    }
  }

  lemma {:induction false} SubsequenceSkip(a: seq<string>, s: seq<string>, t: seq<string>)
    requires IsSubsequence(s, t)
    ensures IsSubsequence(s, a + t)
  {
    if a == [] {
      assert a + t == t;
    } else {
      assert (a + t)[1..] == a[1..] + t;
      SubsequenceSkip(a[1..], s, t);
    }
  }

  lemma {:induction false} SubsequenceSelf(s: seq<string>)
    ensures IsSubsequence(s, s)
  {
    if s != [] {
      SubsequenceSelf(s[1..]);
    }
  }

  /** The tokens that the rewriter drops. */
  function Dropped(fs: FlagSet, args: seq<string>): multiset<string> {
    if Acting(fs, args) then multiset{"--"} else multiset{}
  }

  lemma MultisetConcat(a: seq<string>, b: seq<string>)
    ensures multiset(a + b) == multiset(a) + multiset(b)
  {
  }

  /** No token is lost or invented: together the groups are the arguments, less one acting `--`. */
  lemma {:induction false} TokensConserved(fs: FlagSet, args: seq<string>)
    ensures multiset(Flags(fs, args)) + multiset(Positionals(fs, args)) + Dropped(fs, args) == multiset(args)
    ensures multiset(Reordered(fs, args)) + Dropped(fs, args) == multiset(args)
    decreases |args|
  {
    MultisetConcat(Flags(fs, args), Positionals(fs, args));
    if args == [] {
    } else if args[0] == "--" {
      assert args == ["--"] + args[1..];
      MultisetConcat(["--"], args[1..]);
      hide IsFlagToken, Width;
    } else if IsFlagToken(args[0]) {
      FlagTokensConserved(fs, args);
    } else {
      PositionalTokenConserved(fs, args);
    }
  }

  lemma {:induction false} PositionalTokenConserved(fs: FlagSet, args: seq<string>)
    requires args != [] && args[0] != "--" && !IsFlagToken(args[0])
    ensures multiset(Flags(fs, args)) + multiset(Positionals(fs, args)) + Dropped(fs, args) == multiset(args)
    decreases |args|, 0
  {
    var head, rest := [args[0]], args[1..];
    hide IsFlagToken, Reordered, Width;
    assert args == head + rest;
    TokensConserved(fs, rest);
    MultisetConcat(head, rest);
    MultisetConcat(head, Positionals(fs, rest));
  }

  lemma {:induction false} FlagTokensConserved(fs: FlagSet, args: seq<string>)
    requires args != [] && args[0] != "--" && IsFlagToken(args[0])
    ensures multiset(Flags(fs, args)) + multiset(Positionals(fs, args)) + Dropped(fs, args) == multiset(args)
    decreases |args|, 0
  {
    var w := Width(fs, args);
    var head, rest := args[..w], args[w..];
    hide IsFlagToken, Width, Reordered;
    assert args == head + rest;
    TokensConserved(fs, rest);
    MultisetConcat(head, rest);
    MultisetConcat(head, Flags(fs, rest));
  }

  /** Each group keeps the original order. */
  lemma {:induction false} GroupsInOrder(fs: FlagSet, args: seq<string>)
    ensures IsSubsequence(Flags(fs, args), args) && IsSubsequence(Positionals(fs, args), args)
    decreases |args|
  {
    if args == [] {
    } else if args[0] == "--" {
      assert args == ["--"] + args[1..];
      SubsequenceSelf(args[1..]);
    } else if IsFlagToken(args[0]) {
      var w := Width(fs, args);
      var head, rest := args[..w], args[w..];
      hide IsFlagToken, Width, IsSubsequence;
      assert args == head + rest;
      GroupsInOrder(fs, rest);
      SubsequenceAppend(head, Flags(fs, rest), rest);
      SubsequenceSkip(head, Positionals(fs, rest), rest);
    } else {
      var head, rest := [args[0]], args[1..];
      hide IsFlagToken, IsSubsequence;
      assert args == head + rest;
      GroupsInOrder(fs, rest);
      SubsequenceSkip(head, Flags(fs, rest), rest);
      SubsequenceAppend(head, Positionals(fs, rest), rest);
    }
  }

  // ---- Rewriting twice ---------------------------------------------------

  predicate AllPlain(p: seq<string>) {
    forall i :: 0 <= i < |p| ==> !IsFlagToken(p[i])
  }

  /** A plain token at the front is the first positional. */
  lemma PlainHead(fs: FlagSet, a: string, rest: seq<string>)
    requires !IsFlagToken(a)
    ensures Flags(fs, [a] + rest) == Flags(fs, rest)
    ensures Positionals(fs, [a] + rest) == [a] + Positionals(fs, rest)
  {
    DashesAreFlag(a);
    hide IsFlagToken, Width;
    assert ([a] + rest)[1..] == rest;
  }

  lemma {:induction false} PlainGroups(fs: FlagSet, p: seq<string>)
    requires AllPlain(p)
    ensures Flags(fs, p) == [] && Positionals(fs, p) == p
  {
    if p != [] {
      hide IsFlagToken, Width, Flags, Positionals;
      assert !IsFlagToken(p[0]);
      assert p == [p[0]] + p[1..];
      PlainHead(fs, p[0], p[1..]);
      PlainGroups(fs, p[1..]);
    }
  }

  lemma DashesAreFlag(a: string)
    ensures a == "--" ==> IsFlagToken(a)
  {
  }

  /** A flag at the front keeps its width when what follows it changes, unless it misses its value. */
  lemma WidthLocal(fs: FlagSet, args: seq<string>, more: seq<string>)
    requires args != [] && (|args| > 1 || more == [] || !WantsValue(fs, args[0]))
    ensures Width(fs, args[..Width(fs, args)] + more) == Width(fs, args)
    ensures args[..Width(fs, args)] + more != [] && (args[..Width(fs, args)] + more)[0] == args[0]
  {
    hide WantsValue;
  }

  /** Rewriting the collected flags followed by plain tokens changes nothing. */
  lemma {:induction false} RewriteFlagsThen(fs: FlagSet, args: seq<string>, tail: seq<string>)
    requires !Acting(fs, args) && AllPlain(tail)
    ensures Reordered(fs, Flags(fs, args) + tail) == Flags(fs, args) + tail
    decreases |args|
  {
    if args == [] {
      assert [] + tail == tail;
      PlainGroups(fs, tail);
    } else if !IsFlagToken(args[0]) {
      RewriteFlagsThen(fs, args[1..], tail);
    } else if |args| == 1 && WantsValue(fs, args[0]) {
      RewriteDangling(fs, args, tail);
    } else {
      var w := Width(fs, args);
      var head, more := args[..w], Flags(fs, args[w..]) + tail;
      RewriteFlagsThen(fs, args[w..], tail);
      WidthLocal(fs, args, more);
      hide IsFlagToken, Width, WantsValue;
      assert Flags(fs, args) + tail == head + more;
      RewriteHead(fs, head, more);
    }
  }

  lemma RewriteHead(fs: FlagSet, head: seq<string>, more: seq<string>)
    requires head != [] && head[0] != "--" && IsFlagToken(head[0]) && Width(fs, head + more) == |head|
    requires Reordered(fs, more) == more
    ensures Reordered(fs, head + more) == head + more
  {
    hide IsFlagToken, Width;
    assert (head + more)[..|head|] == head && (head + more)[|head|..] == more;
    assert Reordered(fs, head + more) == head + Flags(fs, more) + Positionals(fs, more);
    assert head + Flags(fs, more) + Positionals(fs, more) == head + (Flags(fs, more) + Positionals(fs, more));
  }

  /** A dangling value flag takes the first plain token; the list stays as it is. */
  lemma RewriteDangling(fs: FlagSet, args: seq<string>, tail: seq<string>)
    requires |args| == 1 && args[0] != "--" && IsFlagToken(args[0]) && WantsValue(fs, args[0]) && AllPlain(tail)
    ensures Reordered(fs, Flags(fs, args) + tail) == Flags(fs, args) + tail
  {
    assert Width(fs, args) == 1;
    hide IsFlagToken, WantsValue;
    assert Flags(fs, args) == args by {
      assert args[..1] == args && args[1..] == [];
    }
    if tail == [] {
      assert args + tail == args;
      assert Positionals(fs, args) == [] by {
        assert args[1..] == [];
      }
    } else {
      var head, more := args + [tail[0]], tail[1..];
      assert args + tail == head + more;
      PlainGroups(fs, more);
      assert [] + more == more;
      RewriteHead(fs, head, more);
    }
  }

  /** Without an acting `--`, rewriting twice is rewriting once, even with unknown flags or a
      missing last value. */
  lemma ReorderIdempotent(fs: FlagSet, args: seq<string>)
    requires !Acting(fs, args)
    ensures Reordered(fs, Reordered(fs, args)) == Reordered(fs, args)
  {
    PositionalsPlain(fs, args);
    RewriteFlagsThen(fs, args, Positionals(fs, args));
  }

  /** Flags given after plain targets mean the same as flags given before them. */
  lemma FlagsAnywhere(fs: FlagSet, targets: seq<string>, flags: seq<string>)
    requires AllPlain(targets) && !Acting(fs, flags) && !Dangling(fs, flags) && Positionals(fs, flags) == []
    ensures Reordered(fs, targets + flags) == flags + targets
    ensures Reordered(fs, flags + targets) == flags + targets
  {
    AllFlags(fs, flags);
    TargetsFirst(fs, targets, flags);
    RewriteFlagsThen(fs, flags, targets);
  }

  lemma {:induction false} AllFlags(fs: FlagSet, flags: seq<string>)
    requires !Acting(fs, flags) && Positionals(fs, flags) == []
    ensures Flags(fs, flags) == flags
    decreases |flags|
  {
    if flags != [] {
      hide IsFlagToken, Width;
      var w := Width(fs, flags);
      assert IsFlagToken(flags[0]);
      AllFlags(fs, flags[w..]);
      assert flags == flags[..w] + flags[w..];
    }
  }

  lemma {:induction false} TargetsFirst(fs: FlagSet, targets: seq<string>, flags: seq<string>)
    requires AllPlain(targets)
    ensures Flags(fs, targets + flags) == Flags(fs, flags)
    ensures Positionals(fs, targets + flags) == targets + Positionals(fs, flags)
  {
    hide IsFlagToken, Width, Flags, Positionals;
    if targets == [] {
      assert targets + flags == flags;
      assert [] + Positionals(fs, flags) == Positionals(fs, flags);
    } else {
      var rest := targets[1..];
      assert !IsFlagToken(targets[0]);
      assert targets == [targets[0]] + rest;
      assert targets + flags == [targets[0]] + (rest + flags);
      PlainHead(fs, targets[0], rest + flags);
      TargetsFirst(fs, rest, flags);
      assert [targets[0]] + (rest + Positionals(fs, flags)) == targets + Positionals(fs, flags);
    }
  }
}
