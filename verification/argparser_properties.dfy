/** What a command line means to the parser, however it is spelled. */
module ArgumentProperties {
  import opened Collections
  import opened Options
  import opened Text
  import opened ArgumentParsers

  /** No name belongs to two options. */
  ghost predicate DistinctNames(options: seq<OptionSpec>) {
    forall i, j, name: string ::
      0 <= i < |options| && 0 <= j < |options| && name != "" && Matches(options[i], name) && Matches(options[j], name) ==> i == j
  }

  lemma FindsNamed(options: seq<OptionSpec>, i: nat, name: string)
    requires DistinctNames(options) && i < |options| && name != "" && Matches(options[i], name)
    ensures Find(options, name) == Some(i)
  {
    FindIsFirst(options, name);
  }

  // ----- Spellings -----

  /** The end of a `-` argument: nothing, or an option with its value. */
  datatype Last = NoValue | Glued(option: nat, value: string) | Separate(option: nat, value: string)

  datatype Spelling =
    | LongEquals(option: nat, value: string)
    | LongSpace(option: nat, value: string)
    | LongFlag(option: nat)
    | Letters(flags: seq<nat>, last: Last)

  ghost predicate HasLong(t: Table, i: nat, takesValue: bool) {
    && i < |t.options| && t.options[i].hasArg == takesValue
    && t.options[i].longName != "" && '=' !in t.options[i].longName
  }

  ghost predicate HasShort(t: Table, i: nat, takesValue: bool) {
    && i < |t.options| && t.options[i].hasArg == takesValue
    && |t.options[i].shortName| == 1 && t.options[i].shortName != "-"
  }

  ghost predicate FlagsOk(t: Table, flags: seq<nat>) {
    forall k :: 0 <= k < |flags| ==> HasShort(t, flags[k], false)
  }

  ghost predicate LastOk(t: Table, last: Last) {
    last.NoValue? || (HasShort(t, last.option, true) && last.value != "")
  }

  ghost predicate SpellingOk(t: Table, s: Spelling) {
    match s
    case LongEquals(i, value) => HasLong(t, i, true) && value != ""
    case LongSpace(i, value) => HasLong(t, i, true) && value != ""
    case LongFlag(i) => HasLong(t, i, false)
    case Letters(flags, last) => FlagsOk(t, flags) && LastOk(t, last)
  }

  /** The arguments that a spelling consists of. */
  ghost function Words(t: Table, s: Spelling): (r: seq<string>)
    requires SpellingOk(t, s)
  {
    match s
    case LongEquals(i, value) => ["--" + t.options[i].longName + "=" + value]
    case LongSpace(i, value) => ["--" + t.options[i].longName, value]
    case LongFlag(i) => ["--" + t.options[i].longName]
    case Letters(flags, last) => ["-" + FlagLetters(t, flags) + LastLetters(t, last)] + LastWord(last)
  }

  ghost function FlagLetters(t: Table, flags: seq<nat>): (r: string)
    requires FlagsOk(t, flags)
  {
    assert flags != [] ==> HasShort(t, flags[0], false);
    if flags == [] then "" else t.options[flags[0]].shortName + FlagLetters(t, flags[1..])
  }

  ghost function LastLetters(t: Table, last: Last): (r: string)
    requires LastOk(t, last)
  {
    match last
    case NoValue => ""
    case Glued(i, value) => t.options[i].shortName + value
    case Separate(i, _) => t.options[i].shortName
  }

  ghost function LastWord(last: Last): (r: seq<string>) { if last.Separate? then [last.value] else [] }

  /** What a spelling stores; a flag stores the empty string. */
  ghost function Stores(s: Spelling): (r: seq<Store>) {
    match s
    case LongEquals(i, value) => [(i, value)]
    case LongSpace(i, value) => [(i, value)]
    case LongFlag(i) => [(i, "")]
    case Letters(flags, last) => FlagStores(flags) + (if last.NoValue? then [] else [(last.option, last.value)])
  }

  ghost function FlagStores(flags: seq<nat>): (r: seq<Store>) {
    if flags == [] then [] else [(flags[0], "")] + FlagStores(flags[1..])
  }

  lemma ShortLetter(t: Table, i: nat, takesValue: bool)
    requires HasShort(t, i, takesValue)
    ensures t.options[i].shortName[0] != '-' && t.options[i].shortName == [t.options[i].shortName[0]]
  {
  }

  lemma {:induction false} LastTaken(t: Table, last: Last, more: seq<string>, stores: seq<Store>)
    requires DistinctNames(t.options) && LastOk(t, last)
    ensures TakeShort(t, LastLetters(t, last), LastWord(last) + more, stores)
      == Took(stores + (if last.NoValue? then [] else [(last.option, last.value)]), |LastWord(last)|)
  {
    if last.NoValue? {
      assert stores + [] == stores;
    } else {
      var name, letters := t.options[last.option].shortName, LastLetters(t, last);
      FindsNamed(t.options, last.option, name);
      ShortLetter(t, last.option, true);
      assert letters[0] == name[0];
      assert last.Glued? ==> letters[1..] == last.value;
    }
  }

  lemma {:induction false} FlagTaken(t: Table, i: nat, letters: string, more: seq<string>, stores: seq<Store>)
    requires DistinctNames(t.options) && HasShort(t, i, false)
    ensures TakeShort(t, t.options[i].shortName + letters, more, stores) == TakeShort(t, letters, more, stores + [(i, "")])
  {
    var name := t.options[i].shortName;
    FindsNamed(t.options, i, name);
    ShortLetter(t, i, false);
    assert (name + letters)[0] == name[0] && (name + letters)[1..] == letters;
  }

  /** Flags may be bundled, and be followed by an option with its value. */
  lemma {:induction false} LettersTaken(t: Table, flags: seq<nat>, last: Last, more: seq<string>, stores: seq<Store>)
    requires DistinctNames(t.options) && FlagsOk(t, flags) && LastOk(t, last)
    ensures TakeShort(t, FlagLetters(t, flags) + LastLetters(t, last), LastWord(last) + more, stores)
      == Took(stores + Stores(Letters(flags, last)), |LastWord(last)|)
  {
    if flags == [] {
      LastTaken(t, last, more, stores);
      assert "" + LastLetters(t, last) == LastLetters(t, last);
      var ending: seq<Store> := if last.NoValue? then [] else [(last.option, last.value)];
      assert FlagStores([]) + ending == ending;
    } else {
      assert HasShort(t, flags[0], false);
      var rest := FlagLetters(t, flags[1..]) + LastLetters(t, last);
      FlagTaken(t, flags[0], rest, LastWord(last) + more, stores);
      LettersTaken(t, flags[1..], last, more, stores + [(flags[0], "")]);
      hide TakeShort, HasShort, DistinctNames;
      assert FlagLetters(t, flags) + LastLetters(t, last) == t.options[flags[0]].shortName + rest;
      StoresCons(flags, last, stores);
    }
  }

  lemma {:induction false} StoresCons(flags: seq<nat>, last: Last, stores: seq<Store>)
    requires flags != []
    ensures stores + [(flags[0], "")] + Stores(Letters(flags[1..], last)) == stores + Stores(Letters(flags, last))
  {
  }

  lemma {:induction false} LettersDash(t: Table, flags: seq<nat>, last: Last)
    requires FlagsOk(t, flags) && LastOk(t, last)
    ensures var arg := "-" + FlagLetters(t, flags) + LastLetters(t, last);
      IsShort(arg) && arg[1..] == FlagLetters(t, flags) + LastLetters(t, last)
  {
    var letters := FlagLetters(t, flags) + LastLetters(t, last);
    assert "-" + FlagLetters(t, flags) + LastLetters(t, last) == "-" + letters;
    if flags != [] {
      assert HasShort(t, flags[0], false);
      ShortLetter(t, flags[0], false);
      assert letters[0] == t.options[flags[0]].shortName[0];
    } else if !last.NoValue? {
      ShortLetter(t, last.option, true);
      assert letters == LastLetters(t, last);
      assert letters[0] == t.options[last.option].shortName[0];
    }
    assert letters == "" || letters[0] != '-';
    assert ("-" + letters)[1..] == letters;
  }

  lemma {:induction false} LongTaken(t: Table, i: nat, value: string, more: seq<string>, stores: seq<Store>)
    requires DistinctNames(t.options) && i < |t.options| && HasLong(t, i, t.options[i].hasArg)
    ensures var name := t.options[i].longName;
      && (!t.options[i].hasArg ==> TakeLong(t, name, more, stores) == Took(stores + [(i, "")], 0))
      && (t.options[i].hasArg && value != "" ==>
            && TakeLong(t, name + "=" + value, more, stores) == Took(stores + [(i, value)], 0)
            && TakeLong(t, name, [value] + more, stores) == Took(stores + [(i, value)], 1))
  {
    var name := t.options[i].longName;
    FindsNamed(t.options, i, name);
    IndexOfConcat(name, '=', value);
    assert name + "=" + value == name + ['='] + value;
    assert (name + "=" + value)[..|name|] == name && (name + "=" + value)[|name| + 1..] == value;
    assert name[..|name|] == name;
  }

  /** A spelling stores what it says and no more, whatever it looks like. */
  lemma {:induction false} SpellingStores(t: Table, s: Spelling, rest: seq<string>, stores: seq<Store>)
    requires DistinctNames(t.options) && SpellingOk(t, s)
    ensures ScanOptions(t, Words(t, s) + rest, stores) == ScanOptions(t, rest, stores + Stores(s))
  {
    hide TakeLong, TakeShort, ScanOptions;
    match s {
      case LongEquals(i, value) =>
        LongTaken(t, i, value, rest, stores);
        OneWord(t, t.options[i].longName + "=" + value, rest, stores);
        ConcatFour("--", t.options[i].longName, "=", value);
      case LongSpace(i, value) =>
        LongTaken(t, i, value, rest, stores);
        OneWord(t, t.options[i].longName, [value] + rest, stores);
        TwoWords("--" + t.options[i].longName, value, rest);
      case LongFlag(i) =>
        LongTaken(t, i, "", rest, stores);
        OneWord(t, t.options[i].longName, rest, stores);
      case Letters(flags, last) =>
        LettersTaken(t, flags, last, rest, stores);
        LettersWord(t, flags, last, rest, stores);
    }
  }

  lemma TwoWords(a: string, b: string, rest: seq<string>)
    ensures [a, b] + rest == [a] + ([b] + rest) && ([b] + rest)[1..] == rest
  {
  }

  /** The first argument is a long option. */
  lemma {:induction false} OneWord(t: Table, text: string, more: seq<string>, stores: seq<Store>)
    requires TakeLong(t, text, more, stores).Took?
    ensures var k := TakeLong(t, text, more, stores);
      ScanOptions(t, ["--" + text] + more, stores) == ScanOptions(t, more[k.used..], k.stores)
  {
    var args := ["--" + text] + more;
    LongDash(text);
    hide TakeLong, IsLong, IsShort;
    ScanStep(t, args, 0, stores);
    assert args[0..] == args && args[1..] == more;
    var k := TakeLong(t, text, more, stores);
    assert args[k.used + 1..] == more[k.used..];
  }

  /** The first argument is a group of letters, and `value` holds the arguments it takes. */
  lemma {:induction false} ShortWord(t: Table, arg: string, value: seq<string>, rest: seq<string>, stores: seq<Store>)
    requires IsShort(arg) && TakeShort(t, arg[1..], value + rest, stores).Took?
    requires TakeShort(t, arg[1..], value + rest, stores).used == |value|
    ensures ScanOptions(t, [arg] + value + rest, stores) ==
      ScanOptions(t, rest, TakeShort(t, arg[1..], value + rest, stores).stores)
  {
    var args := [arg] + value + rest;
    hide TakeShort;
    assert IsShort(args[0]) && !IsLong(args[0]);
    hide IsShort, IsLong;
    ScanStep(t, args, 0, stores);
    assert args[0..] == args;
    WordsApart(arg, value, rest);
  }

  lemma WordsApart(arg: string, value: seq<string>, rest: seq<string>)
    ensures ([arg] + value + rest)[1..] == value + rest && ([arg] + value + rest)[|value| + 1..] == rest
  {
  }

  lemma {:induction false} LettersWord(t: Table, flags: seq<nat>, last: Last, rest: seq<string>, stores: seq<Store>)
    requires FlagsOk(t, flags) && LastOk(t, last)
    requires TakeShort(t, FlagLetters(t, flags) + LastLetters(t, last), LastWord(last) + rest, stores)
      == Took(stores + Stores(Letters(flags, last)), |LastWord(last)|)
    ensures ScanOptions(t, Words(t, Letters(flags, last)) + rest, stores)
      == ScanOptions(t, rest, stores + Stores(Letters(flags, last)))
  {
    LettersDash(t, flags, last);
    hide TakeShort, Stores, FlagLetters, LastLetters, FlagsOk, LastOk, ScanOptions, LastWord;
    ShortWord(t, "-" + FlagLetters(t, flags) + LastLetters(t, last), LastWord(last), rest, stores);
  }

  lemma LongDash(text: string)
    ensures IsLong("--" + text) && ("--" + text)[2..] == text
  {
  }

  ghost predicate AllOk(t: Table, ss: seq<Spelling>) {
    forall k :: 0 <= k < |ss| ==> SpellingOk(t, ss[k])
  }

  ghost function AllWords(t: Table, ss: seq<Spelling>): (r: seq<string>)
    requires AllOk(t, ss)
  {
    if ss == [] then [] else Words(t, ss[0]) + AllWords(t, ss[1..])
  }

  ghost function AllStores(ss: seq<Spelling>): (r: seq<Store>) {
    if ss == [] then [] else Stores(ss[0]) + AllStores(ss[1..])
  }

  lemma {:induction false} SpellingsStore(t: Table, ss: seq<Spelling>, rest: seq<string>, stores: seq<Store>)
    requires DistinctNames(t.options) && AllOk(t, ss)
    ensures ScanOptions(t, AllWords(t, ss) + rest, stores) == ScanOptions(t, rest, stores + AllStores(ss))
  {
    hide ScanOptions, Words, Stores, SpellingOk;
    if ss == [] {
      assert AllWords(t, ss) + rest == rest && stores + [] == stores;
    } else {
      var more := AllWords(t, ss[1..]) + rest;
      assert AllWords(t, ss) + rest == Words(t, ss[0]) + more;
      SpellingStores(t, ss[0], more, stores);
      SpellingsStore(t, ss[1..], rest, stores + Stores(ss[0]));
      assert stores + Stores(ss[0]) + AllStores(ss[1..]) == stores + AllStores(ss);
    }
  }

  /** Command lines that store the same values in the same order parse alike. */
  lemma AnySpelling(t: Table, ss: seq<Spelling>, ss': seq<Spelling>, rest: seq<string>)
    requires DistinctNames(t.options) && AllOk(t, ss) && AllOk(t, ss') && AllStores(ss) == AllStores(ss')
    ensures ParseArgs(t, AllWords(t, ss) + rest) == ParseArgs(t, AllWords(t, ss') + rest)
  {
    SpellingsStore(t, ss, rest, []);
    SpellingsStore(t, ss', rest, []);
  }

  /** A bare `--` does not end the options: it names the first option that lacks a short or a
      long name. */
  lemma DoubleDashIsAnOption(t: Table, i: nat, value: string, rest: seq<string>, stores: seq<Store>)
    requires Find(t.options, "") == Some(i) && t.options[i].hasArg && value != ""
    ensures ScanOptions(t, ["--", value] + rest, stores) == ScanOptions(t, rest, stores + [(i, value)])
  {
    var args := ["--", value] + rest;
    ScanStep(t, args, 0, stores);
    assert args[0..] == args && args[1..] == [value] + rest && args[2..] == rest;
    assert "--"[2..] == "" && ""[..0] == "";
  }

  // ----- Refusals -----

  ghost predicate Nameless(t: Table, name: string) {
    forall i :: 0 <= i < |t.options| ==> t.options[i].shortName != name && t.options[i].longName != name
  }

  ghost predicate NoValueIn(more: seq<string>) { more == [] || more[0] == "" }

  lemma {:induction false} Refused(t: Table, ss: seq<Spelling>, arg: string, more: seq<string>, e: Error)
    requires DistinctNames(t.options) && AllOk(t, ss)
    requires IsLong(arg) ==> TakeLong(t, arg[2..], more, AllStores(ss)) == Bad(e)
    requires !IsLong(arg) ==> IsShort(arg) && TakeShort(t, arg[1..], more, AllStores(ss)) == Bad(e)
    ensures ParseArgs(t, AllWords(t, ss) + ([arg] + more)) == Rejected(e)
  {
    hide TakeLong, TakeShort, IsLong, IsShort;
    var args := [arg] + more;
    SpellingsStore(t, ss, args, []);
    assert [] + AllStores(ss) == AllStores(ss);
    ScanStep(t, args, 0, AllStores(ss));
    assert args[0..] == args && args[1..] == more;
  }

  /** A long option that no option is called is refused, with or without a value. */
  lemma UnknownLongRefused(t: Table, ss: seq<Spelling>, name: string, value: string, more: seq<string>)
    requires DistinctNames(t.options) && AllOk(t, ss) && Nameless(t, name) && '=' !in name
    ensures ParseArgs(t, AllWords(t, ss) + (["--" + name] + more)) == Rejected(UnknownOption(name))
    ensures ParseArgs(t, AllWords(t, ss) + (["--" + (name + "=" + value)] + more)) == Rejected(UnknownOption(name))
  {
    FindIsFirst(t.options, name);
    LongNameFound(name, value);
    LongDash(name);
    LongDash(name + "=" + value);
    Refused(t, ss, "--" + name, more, UnknownOption(name));
    Refused(t, ss, "--" + (name + "=" + value), more, UnknownOption(name));
  }

  lemma LongNameFound(name: string, value: string)
    requires '=' !in name
    ensures IndexOf(name, '=') == |name| && IndexOf(name + "=" + value, '=') == |name|
    ensures name[..|name|] == name && (name + "=" + value)[..|name|] == name && (name + "=" + value)[|name| + 1..] == value
  {
    IndexOfConcat(name, '=', value);
    assert name + "=" + value == name + ['='] + value;
  }

  /** A long option that takes a value is refused without one, at the end of the command line, before
      an empty argument and with nothing after the equals sign. */
  lemma MissingLongValueRefused(t: Table, ss: seq<Spelling>, i: nat, more: seq<string>)
    requires DistinctNames(t.options) && AllOk(t, ss) && HasLong(t, i, true)
    ensures var name := t.options[i].longName;
      && (NoValueIn(more) ==> ParseArgs(t, AllWords(t, ss) + (["--" + name] + more)) == Rejected(RequiresArgument(i)))
      && ParseArgs(t, AllWords(t, ss) + (["--" + (name + "=" + "")] + more)) == Rejected(RequiresArgument(i))
  {
    var name := t.options[i].longName;
    FindsNamed(t.options, i, name);
    LongNameFound(name, "");
    LongDash(name);
    LongDash(name + "=" + "");
    hide DistinctNames;
    if NoValueIn(more) { Refused(t, ss, "--" + name, more, RequiresArgument(i)); }
    Refused(t, ss, "--" + (name + "=" + ""), more, RequiresArgument(i));
  }

  lemma {:induction false} FlagsThen(t: Table, flags: seq<nat>, letters: string, more: seq<string>, stores: seq<Store>)
    requires DistinctNames(t.options) && FlagsOk(t, flags)
    ensures TakeShort(t, FlagLetters(t, flags) + letters, more, stores)
      == TakeShort(t, letters, more, stores + FlagStores(flags))
    decreases |flags|
  {
    hide TakeShort, DistinctNames;
    if flags == [] {
      assert FlagLetters(t, flags) + letters == letters && stores + FlagStores(flags) == stores;
    } else {
      assert HasShort(t, flags[0], false);
      var rest := FlagLetters(t, flags[1..]) + letters;
      assert FlagLetters(t, flags) + letters == t.options[flags[0]].shortName + rest;
      FlagTaken(t, flags[0], rest, more, stores);
      FlagsThen(t, flags[1..], letters, more, stores + [(flags[0], "")]);
      assert stores + [(flags[0], "")] + FlagStores(flags[1..]) == stores + FlagStores(flags);
    }
  }

  /** A group of letters that goes on with one that is no dash at its front. */
  lemma {:induction false} GroupIsShort(t: Table, flags: seq<nat>, c: char, letters: string)
    requires FlagsOk(t, flags) && (flags == [] ==> c != '-')
    ensures var arg := "-" + (FlagLetters(t, flags) + ([c] + letters));
      !IsLong(arg) && IsShort(arg) && arg[1..] == FlagLetters(t, flags) + ([c] + letters)
  {
    var group := FlagLetters(t, flags) + ([c] + letters);
    if flags != [] {
      assert HasShort(t, flags[0], false);
      ShortLetter(t, flags[0], false);
      assert group[0] == t.options[flags[0]].shortName[0];
    } else {
      assert group[0] == c;
    }
    assert ("-" + group)[1] == group[0];
  }

  /** A letter that no option is called is refused, whatever flags are before it. */
  lemma UnknownLetterRefused(t: Table, ss: seq<Spelling>, flags: seq<nat>, c: char, letters: string, more: seq<string>)
    requires DistinctNames(t.options) && AllOk(t, ss) && FlagsOk(t, flags) && (flags == [] ==> c != '-') && Nameless(t, [c])
    ensures ParseArgs(t, AllWords(t, ss) + (["-" + (FlagLetters(t, flags) + ([c] + letters))] + more))
      == Rejected(UnknownOption([c]))
  {
    FindIsFirst(t.options, [c]);
    GroupIsShort(t, flags, c, letters);
    FlagsThen(t, flags, [c] + letters, more, AllStores(ss));
    hide FlagLetters, IsLong, IsShort;
    assert ([c] + letters)[0] == c;
    assert TakeShort(t, [c] + letters, more, AllStores(ss) + FlagStores(flags)) == Bad(UnknownOption([c]));
    Refused(t, ss, "-" + (FlagLetters(t, flags) + ([c] + letters)), more, UnknownOption([c]));
  }

  /** A letter that takes a value is refused without one. */
  lemma MissingLetterValueRefused(t: Table, ss: seq<Spelling>, flags: seq<nat>, i: nat, more: seq<string>)
    requires DistinctNames(t.options) && AllOk(t, ss) && FlagsOk(t, flags) && HasShort(t, i, true) && NoValueIn(more)
    ensures ParseArgs(t, AllWords(t, ss) + (["-" + (FlagLetters(t, flags) + t.options[i].shortName)] + more))
      == Rejected(RequiresArgument(i))
  {
    var name := t.options[i].shortName;
    ShortLetter(t, i, true);
    assert name == [name[0]] + "";
    FindsNamed(t.options, i, name);
    GroupIsShort(t, flags, name[0], "");
    FlagsThen(t, flags, name, more, AllStores(ss));
    hide FlagLetters, IsLong, IsShort, DistinctNames;
    assert TakeShort(t, name, more, AllStores(ss) + FlagStores(flags)) == Bad(RequiresArgument(i));
    Refused(t, ss, "-" + (FlagLetters(t, flags) + name), more, RequiresArgument(i));
  }

  // ----- Positionals -----

  /** The first positional that allows several values, or their number. */
  ghost predicate FirstMultiple(ps: seq<Positional>, m: nat) {
    && m <= |ps| && (m < |ps| ==> ps[m].allowsMultiple)
    && forall j :: 0 <= j < m ==> !ps[j].allowsMultiple
  }

  /** What the `j`-th positional gets when the `m`-th takes all that is left. */
  ghost function Share(args: seq<string>, m: nat, j: nat): (r: seq<string>) {
    if j < m && j < |args| then [args[j]]
    else if j == m && m <= |args| then args[m..]
    else []
  }

  /** Which argument goes where: one to each positional up to the first that allows several, which
      takes the rest; without such one the first argument too many is refused. */
  lemma {:induction false} PlacedExactly(ps: seq<Positional>, index: nat, args: seq<string>, values: seq<seq<string>>,
                                         m: nat, j: nat)
    requires |values| == |ps| && FirstMultiple(ps, m) && index <= m && forall k :: index <= k < |ps| ==> values[k] == []
    ensures var placed := Place(ps, index, args, values);
      && (placed.Overflow? <==> m == |ps| && |args| > m - index)
      && (placed.Overflow? ==> placed.arg == args[m - index])
      && (placed.Placed? && j < |ps| ==>
            placed.values[j] == if j < index then values[j] else Share(args, m - index, j - index))
    decreases m - index
  {
    if index == m && m < |ps| {
      MultipleTakesAll(ps, index, args, values);
      assert [] + args == args && args[0..] == args;
    } else if args != [] && index < m {
      var values' := values[index := values[index] + [args[0]]];
      PlacedExactly(ps, index + 1, args[1..], values', m, j);
      assert Place(ps, index, args, values) == Place(ps, index + 1, args[1..], values');
      assert values'[index] == Share(args, m - index, 0);
      hide Place, FirstMultiple;
      if j > index { ShareLater(args, m - index, j - index); }
    }
  }

  lemma ShareLater(args: seq<string>, m: nat, j: nat)
    requires args != [] && m > 0 && j > 0
    ensures Share(args[1..], m - 1, j - 1) == Share(args, m, j)
  {
    if m <= |args| { assert args[1..][m-1..] == args[m..]; }
  }

  function AllValues(values: seq<seq<string>>): (r: seq<string>) {
    if values == [] then [] else AllValues(values[..|values|-1]) + values[|values|-1]
  }

  lemma {:induction false} AllValuesAppend(values: seq<seq<string>>, i: nat, arg: string)
    requires i < |values| && forall j :: i < j < |values| ==> values[j] == []
    ensures AllValues(values[i := values[i] + [arg]]) == AllValues(values) + [arg]
    decreases |values|
  {
    var before, last := values[..|values|-1], values[|values|-1];
    var values' := values[i := values[i] + [arg]];
    if i == |values| - 1 {
      assert values'[..|values|-1] == before;
    } else {
      assert values'[..|values|-1] == before[i := before[i] + [arg]];
      AllValuesAppend(before, i, arg);
      assert AllValues(before) + [arg] + [] == AllValues(before) + [] + [arg];
    }
  }

  /** No positional argument is lost, changed or moved. */
  lemma {:induction false} PositionalsVerbatim(ps: seq<Positional>, index: nat, args: seq<string>, values: seq<seq<string>>)
    requires |values| == |ps| && forall j :: index < j < |values| ==> values[j] == []
    requires Place(ps, index, args, values).Placed?
    ensures AllValues(Place(ps, index, args, values).values) == AllValues(values) + args
    decreases |args|
  {
    if args == [] {
      assert AllValues(values) + [] == AllValues(values);
    } else {
      var values' := values[index := values[index] + [args[0]]];
      AllValuesAppend(values, index, args[0]);
      PositionalsVerbatim(ps, if ps[index].allowsMultiple then index else index + 1, args[1..], values');
      assert AllValues(values) + [args[0]] + args[1..] == AllValues(values) + args;
    }
  }

  /** A positional that allows several values takes all that follow. */
  lemma {:induction false} MultipleTakesAll(ps: seq<Positional>, index: nat, args: seq<string>, values: seq<seq<string>>)
    requires |values| == |ps| && index < |ps| && ps[index].allowsMultiple
    ensures Place(ps, index, args, values) == Placed(values[index := values[index] + args])
    decreases |args|
  {
    if args == [] {
      assert values[index] + [] == values[index];
      assert values[index := values[index]] == values;
    } else {
      var values' := values[index := values[index] + [args[0]]];
      MultipleTakesAll(ps, index, args[1..], values');
      assert values[index] + [args[0]] + args[1..] == values[index] + args;
    }
  }

  /** A command after the options is the rest of the command line, dashes included. */
  lemma CommandIsSuffix(t: Table, ss: seq<Spelling>, command: seq<string>)
    requires DistinctNames(t.options) && AllOk(t, ss)
    requires |t.positionals| == 1 && t.positionals[0].allowsMultiple
    requires command != [] && !("-" <= command[0])
    ensures ParseArgs(t, AllWords(t, ss) + command).Accepted? ==>
      && ParseArgs(t, AllWords(t, ss) + command).values == [command]
      && ParseArgs(t, AllWords(t, ss) + command).stores == WithDefaults(t.options, AllStores(ss), 0)
  {
    SpellingsStore(t, ss, command, []);
    assert [] + AllStores(ss) == AllStores(ss);
    ScanStops(t, command, AllStores(ss));
    MultipleTakesAll(t.positionals, 0, command, Empty(1));
    assert [] + command == command;
    assert Empty(1)[0 := command] == [command];
  }

  // ----- Values -----

  lemma {:induction false} StoreSets(stores: seq<Store>, i: nat, value: string, k: nat)
    ensures ValueOf(stores + [(i, value)], k) == if k == i then Some(value) else ValueOf(stores, k)
  {
    assert (stores + [(i, value)])[..|stores|] == stores;
  }

  lemma {:induction false} DefaultsFill(options: seq<OptionSpec>, stores: seq<Store>, i: nat, k: nat)
    requires i <= |options| && k < |options|
    ensures ValueOf(WithDefaults(options, stores, i), k) ==
      if k < i || ValueOf(stores, k).Some? then ValueOf(stores, k) else options[k].defaultValue
    decreases |options| - i
  {
    if i < |options| {
      if ValueOf(stores, i).None? && options[i].defaultValue.Some? {
        StoreSets(stores, i, options[i].defaultValue.value, k);
        hide ValueOf;
        DefaultsFill(options, stores + [(i, options[i].defaultValue.value)], i + 1, k);
      } else {
        DefaultsFill(options, stores, i + 1, k);
      }
    }
  }

  lemma {:induction false} MissingMeaning(options: seq<OptionSpec>, stores: seq<Store>, i: nat)
    requires i <= |options|
    ensures MissingFrom(options, stores, i) == |options| <==>
      forall k :: i <= k < |options| && options[k].isRequired ==> ValueOf(stores, k).Some?
    decreases |options| - i
  {
    if i < |options| { MissingMeaning(options, stores, i + 1); }
  }

  lemma {:induction false} EmptyMeaning(ps: seq<Positional>, values: seq<seq<string>>, i: nat)
    requires i <= |ps| == |values|
    ensures EmptyFrom(ps, values, i) == |ps| <==> forall k :: i <= k < |ps| && ps[k].isRequired ==> values[k] != []
    decreases |ps| - i
  {
    if i < |ps| { EmptyMeaning(ps, values, i + 1); }
  }

  /** The first required option without a value from the `i`-th on. */
  ghost predicate FirstMissingOption(options: seq<OptionSpec>, stores: seq<Store>, i: nat, k: nat) {
    && i <= k < |options| && options[k].isRequired && ValueOf(stores, k).None?
    && forall j :: i <= j < k && options[j].isRequired ==> ValueOf(stores, j).Some?
  }

  ghost predicate FirstEmptyPositional(ps: seq<Positional>, values: seq<seq<string>>, i: nat, k: nat)
    requires |values| == |ps|
  {
    && i <= k < |ps| && ps[k].isRequired && values[k] == []
    && forall j :: i <= j < k && ps[j].isRequired ==> values[j] != []
  }

  lemma {:induction false} MissingIsFirst(options: seq<OptionSpec>, stores: seq<Store>, i: nat, k: nat)
    requires i <= |options| && k < |options|
    ensures MissingFrom(options, stores, i) == k <==> FirstMissingOption(options, stores, i, k)
    decreases |options| - i
  {
    if i < |options| && !(options[i].isRequired && ValueOf(stores, i).None?) { MissingIsFirst(options, stores, i + 1, k); }
  }

  lemma {:induction false} EmptyIsFirst(ps: seq<Positional>, values: seq<seq<string>>, i: nat, k: nat)
    requires i <= |ps| == |values| && k < |ps|
    ensures EmptyFrom(ps, values, i) == k <==> FirstEmptyPositional(ps, values, i, k)
    decreases |ps| - i
  {
    if i < |ps| && !(ps[i].isRequired && values[i] == []) { EmptyIsFirst(ps, values, i + 1, k); }
  }

  /** Which error a command line is rejected with once its options can be read: a positional too
      many, else the first required option without a value, else the first required positional
      without one. */
  lemma RejectedMeans(t: Table, args: seq<string>, stores: seq<Store>, rest: seq<string>, k: nat, arg: string)
    requires ScanOptions(t, args, []) == Scanned(stores, rest)
    ensures var placed, r := Place(t.positionals, 0, rest, Empty(|t.positionals|)), ParseArgs(t, args);
      && (r == Rejected(UnexpectedPositional(arg)) <==> placed == Overflow(arg))
      && (r == Rejected(MissingOption(k)) <==> placed.Placed? && FirstMissingOption(t.options, stores, 0, k))
      && (r == Rejected(MissingPositional(k)) <==>
            && placed.Placed? && FirstEmptyPositional(t.positionals, placed.values, 0, k)
            && forall j :: 0 <= j < |t.options| && t.options[j].isRequired ==> ValueOf(stores, j).Some?)
  {
    var placed := Place(t.positionals, 0, rest, Empty(|t.positionals|));
    hide Place, ValueOf;
    MissingMeaning(t.options, stores, 0);
    if k < |t.options| { MissingIsFirst(t.options, stores, 0, k); }
    if placed.Placed? && k < |t.positionals| { EmptyIsFirst(t.positionals, placed.values, 0, k); }
    hide MissingFrom, EmptyFrom;
  }

  /** A command line is accepted exactly when its options can be read, its positionals fit and
      nothing required is missing; every option then holds the last value given, or its
      default. A default does not stand in for a required option. */
  lemma AcceptedMeans(t: Table, args: seq<string>, stores: seq<Store>, rest: seq<string>)
    requires ScanOptions(t, args, []) == Scanned(stores, rest)
    ensures var placed := Place(t.positionals, 0, rest, Empty(|t.positionals|));
      && (ParseArgs(t, args).Accepted? <==>
            && placed.Placed?
            && (forall k :: 0 <= k < |t.options| && t.options[k].isRequired ==> ValueOf(stores, k).Some?)
            && (forall k :: 0 <= k < |t.positionals| && t.positionals[k].isRequired ==> placed.values[k] != []))
      && (ParseArgs(t, args).Accepted? ==> forall k :: 0 <= k < |t.options| ==>
            ValueOf(ParseArgs(t, args).stores, k) ==
              if ValueOf(stores, k).Some? then ValueOf(stores, k) else t.options[k].defaultValue)
  {
    var placed := Place(t.positionals, 0, rest, Empty(|t.positionals|));
    MissingMeaning(t.options, stores, 0);
    if placed.Placed? { EmptyMeaning(t.positionals, placed.values, 0); }
    forall k | 0 <= k < |t.options|
      ensures ValueOf(WithDefaults(t.options, stores, 0), k) ==
        if ValueOf(stores, k).Some? then ValueOf(stores, k) else t.options[k].defaultValue
    {
      DefaultsFill(t.options, stores, 0, k);
    }
  }
}
