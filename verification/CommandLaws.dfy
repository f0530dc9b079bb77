/** How the flag parser and the rewriter read each written form of an argument. */
module CommandLaws {
  import opened Strings
  import opened CommandLine

  /** A flag name as it is written: it has a first character, and that is neither a dash nor an equals sign. */
  predicate Written(name: string) {
    name != "" && name[0] != '-' && name[0] != '='
  }

  lemma {:induction false} KeyBeforeEquals(key: string, value: string)
    requires '=' !in key
    ensures IndexOf(key, '=') == |key|
    ensures IndexOf(key + "=" + value, '=') == |key|
  {
    if key != "" {
      assert key[0] in key;
      assert (key + "=" + value)[1..] == key[1..] + "=" + value;
      KeyBeforeEquals(key[1..], value);
    }
  }

  lemma Dashed(dashes: string, name: string)
    requires dashes in {"-", "--"} && Written(name)
    ensures var a := dashes + name; |a| >= 2 && a[0] == '-' && a != "--" && NameOf(a) == name && TrimDashes(a) == name
  {
    var a := dashes + name;
    assert a[1..] == if dashes == "-" then name else "-" + name;
    assert TrimDashes(name) == name;
    if dashes == "--" {
      assert a[2..] == name;
      assert a[1..][1..] == name;
    }
  }

  /** A flag without a value part, behind one or two dashes: a boolean is set to true, any other takes the next
      argument and misses its value at the end. */
  lemma BareFlag(fs: FlagSet, dashes: string, name: string, rest: seq<string>)
    requires dashes in {"-", "--"} && Written(name) && '=' !in name
    ensures IsFlagToken(dashes + name)
    ensures StepOf(fs, [dashes + name] + rest) ==
            if name !in fs then BadFlag
            else if fs[name] == BoolFlag then Assign(name, "true", 1)
            else if rest == [] then MissingValue(name)
            else Assign(name, rest[0], 2)
    ensures Width(fs, [dashes + name] + rest) == if name in fs && fs[name] == ValueFlag && rest != [] then 2 else 1
  {
    Dashed(dashes, name);
    KeyBeforeEquals(name, "");
    hide TrimDashes, NameOf;
    assert name[..|name|] == name;
  }

  /** With a value part, the flag takes no further argument; a boolean accepts twelve spellings. */
  lemma FlagWithValue(fs: FlagSet, dashes: string, key: string, value: string, rest: seq<string>)
    requires dashes in {"-", "--"} && Written(key) && '=' !in key
    ensures IsFlagToken(dashes + (key + "=" + value))
    ensures StepOf(fs, [dashes + (key + "=" + value)] + rest) ==
            if key !in fs then BadFlag
            else if fs[key] == BoolFlag &&
                    value !in {"1", "t", "T", "true", "TRUE", "True", "0", "f", "F", "false", "FALSE", "False"} then
              BadFlag
            else Assign(key, value, 1)
    ensures Width(fs, [dashes + (key + "=" + value)] + rest) == 1
  {
    var name := key + "=" + value;
    Dashed(dashes, name);
    KeyBeforeEquals(key, value);
    hide TrimDashes, NameOf, ValidBool;
    assert name[|key|] == '=' && '=' in name;
    assert name[..|key|] == key && name[|key| + 1..] == value;
    SpelledBool(value);
  }

  lemma SpelledBool(v: string)
    ensures ValidBool(v) <==> v in {"1", "t", "T", "true", "TRUE", "True", "0", "f", "F", "false", "FALSE", "False"}
  {
  }

  /** Two dashes alone end the flags; dashes before no name, before an equals sign, or a third dash are malformed; a
      lone dash, an empty argument and anything that starts otherwise is no flag. */
  lemma OtherTokens(fs: FlagSet, a: string, rest: seq<string>)
    ensures a == "--" ==> StepOf(fs, [a] + rest) == Terminator
    ensures HasPrefix(a, "---") || HasPrefix(a, "-=") || HasPrefix(a, "--=") ==> StepOf(fs, [a] + rest) == BadFlag
    ensures a == "" || a == "-" || a[0] != '-' ==> StepOf(fs, [a] + rest) == NotFlag && !IsFlagToken(a)
  {
  }

  /** These forms are all there are. */
  lemma FormsCovered(a: string)
    ensures || a == "" || a == "-" || a[0] != '-' || a == "--"
            || HasPrefix(a, "---") || HasPrefix(a, "-=") || HasPrefix(a, "--=")
            || (exists name: string :: Written(name) && (a == "-" + name || a == "--" + name))
  {
    if |a| >= 2 && a[0] == '-' && a != "--" {
      assert a == "-" + a[1..];
      if a[1] == '-' {
        assert a == "--" + a[2..];
        assert Written(a[2..]) || a[2] == '-' || a[2] == '=';
      } else {
        assert Written(a[1..]) || a[1] == '=';
      }
    }
  }

  /** Settings are collected in the order in which the flags are written, by the parser and by the full scan; a failure
      names the offending token and discards them. */
  lemma SettingsInOrder(fs: FlagSet, args: seq<string>)
    requires args != []
    ensures var s := StepOf(fs, args);
            s.Assign? ==>
              var after, full := GoParse(fs, args[s.width..]), Interleaved(fs, args[s.width..]);
              && GoParse(fs, args) ==
                 (if after.Parsed? then Parsed([Assignment(s.name, s.value)] + after.settings, after.rest) else after)
              && Interleaved(fs, args) ==
                 (if full.Parsed? then Parsed([Assignment(s.name, s.value)] + full.settings, full.rest) else full)
    ensures StepOf(fs, args).BadFlag? || StepOf(fs, args).MissingValue? ==>
              GoParse(fs, args) == Interleaved(fs, args) == Failed(args[0])
    ensures StepOf(fs, args).Terminator? ==> GoParse(fs, args) == Interleaved(fs, args) == Parsed([], args[1..])
    ensures StepOf(fs, args).NotFlag? ==> GoParse(fs, args) == Parsed([], args)
  {
    hide StepOf;
  }
}
