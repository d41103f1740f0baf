/** The command-line parser (src/argparser.h). A callback is modelled by the log of its
    invocations; an option without one is an option whose callback does nothing. */
module ArgumentParsers {
  import opened Collections
  import opened Options
  import opened Text

  datatype OptionSpec = OptionSpec(shortName: string, longName: string, hasArg: bool, isRequired: bool,
                                   defaultValue: Option<string>)

  datatype Positional = Positional(name: string, isRequired: bool, allowsMultiple: bool)

  datatype Table = Table(options: seq<OptionSpec>, positionals: seq<Positional>)

  /** The argument of each exception, an option by its index. */
  datatype Error =
    | UnknownOption(name: string)
    | RequiresArgument(option: nat)
    | UnexpectedPositional(arg: string)
    | MissingOption(option: nat)
    | MissingPositional(positional: nat)

  /** A value stored in an option. */
  type Store = (nat, string)

  predicate Matches(o: OptionSpec, name: string) { o.shortName == name || o.longName == name }

  /** The first option of that name. */
  function Find(options: seq<OptionSpec>, name: string): (r: Option<nat>)
    ensures r.Some? ==> r.value < |options|
  {
    if options == [] then None
    else if Matches(options[0], name) then Some(0)
    else
      var i := Find(options[1..], name);
      if i.None? then None else Some(i.value + 1)
  }

  lemma {:induction false} FindIsFirst(options: seq<OptionSpec>, name: string)
    ensures match Find(options, name)
            case None => forall j :: 0 <= j < |options| ==> !Matches(options[j], name)
            case Some(i) => Matches(options[i], name) && forall j :: 0 <= j < i ==> !Matches(options[j], name)
  {
    if options != [] {
      FindIsFirst(options[1..], name);
      forall j | 1 <= j < |options| ensures options[j] == options[1..][j-1] {}
    }
  }

  // ----- Options -----

  /** The stores so far and how many of the following arguments were taken as values. */
  datatype Taken = Took(stores: seq<Store>, used: nat) | Bad(error: Error)

  /** The letters of a `-` argument. */
  function TakeShort(t: Table, letters: string, more: seq<string>, stores: seq<Store>): (r: Taken)
    ensures r.Took? ==> r.used <= |more|
    decreases |letters|
  {
    if letters == "" then Took(stores, 0)
    else
      match Find(t.options, [letters[0]])
      case None => Bad(UnknownOption([letters[0]]))
      case Some(i) =>
        if !t.options[i].hasArg then TakeShort(t, letters[1..], more, stores + [(i, "")])
        else if |letters| > 1 then Took(stores + [(i, letters[1..])], 0)
        else if more != [] && more[0] != "" then Took(stores + [(i, more[0])], 1)
        else Bad(RequiresArgument(i))
  }

  /** The text of a `--` argument. */
  function TakeLong(t: Table, text: string, more: seq<string>, stores: seq<Store>): (r: Taken)
    ensures r.Took? ==> r.used <= |more|
  {
    var eq := IndexOf(text, '=');
    match Find(t.options, text[..eq])
    case None => Bad(UnknownOption(text[..eq]))
    case Some(i) =>
      if !t.options[i].hasArg then Took(stores + [(i, "")], 0)
      else if eq < |text| then
        if text[eq+1..] == "" then Bad(RequiresArgument(i)) else Took(stores + [(i, text[eq+1..])], 0)
      else if more != [] && more[0] != "" then Took(stores + [(i, more[0])], 1)
      else Bad(RequiresArgument(i))
  }

  predicate IsLong(arg: string) { "--" <= arg }

  predicate IsShort(arg: string) { "-" <= arg && !("--" <= arg) }

  /** What the options store, and the arguments from the first positional on. */
  datatype Scan = Scanned(stores: seq<Store>, rest: seq<string>) | Failed(error: Error)

  function TakeOne(t: Table, args: seq<string>, stores: seq<Store>): (r: Taken)
    requires args != [] && (IsLong(args[0]) || IsShort(args[0]))
    ensures r.Took? ==> 1 + r.used <= |args|
  {
    if IsLong(args[0]) then TakeLong(t, args[0][2..], args[1..], stores)
    else TakeShort(t, args[0][1..], args[1..], stores)
  }

  function ScanOptions(t: Table, args: seq<string>, stores: seq<Store>): (r: Scan)
    decreases |args|
  {
    if args == [] || !(IsLong(args[0]) || IsShort(args[0])) then Scanned(stores, args)
    else
      match TakeOne(t, args, stores)
      case Bad(e) => Failed(e)
      case Took(stores', used) => ScanOptions(t, args[1 + used..], stores')
  }

  // ----- Positionals -----

  datatype Placed = Placed(values: seq<seq<string>>) | Overflow(arg: string)

  function Place(ps: seq<Positional>, index: nat, args: seq<string>, values: seq<seq<string>>): (r: Placed)
    requires |values| == |ps|
    ensures r.Placed? ==> |r.values| == |ps|
    decreases |args|
  {
    if args == [] then Placed(values)
    else if index < |ps| then
      Place(ps, if ps[index].allowsMultiple then index else index + 1, args[1..],
            values[index := values[index] + [args[0]]])
    else Overflow(args[0])
  }

  function Empty(n: nat): (r: seq<seq<string>>)
    ensures |r| == n && forall i :: 0 <= i < n ==> r[i] == []
  {
    seq(n, i => [])
  }

  // ----- Values -----

  /** The last value stored in an option. */
  function ValueOf(stores: seq<Store>, i: nat): (r: Option<string>) {
    if stores == [] then None
    else if stores[|stores|-1].0 == i then Some(stores[|stores|-1].1)
    else ValueOf(stores[..|stores|-1], i)
  }

  /** The first required option without a value, then the first required positional. */
  function FirstMissing(t: Table, stores: seq<Store>, values: seq<seq<string>>): (r: Option<Error>)
    requires |values| == |t.positionals|
  {
    var i := MissingFrom(t.options, stores, 0);
    if i < |t.options| then Some(MissingOption(i))
    else
      var j := EmptyFrom(t.positionals, values, 0);
      if j < |t.positionals| then Some(MissingPositional(j)) else None
  }

  function MissingFrom(options: seq<OptionSpec>, stores: seq<Store>, i: nat): (r: nat)
    requires i <= |options|
    ensures i <= r <= |options|
    decreases |options| - i
  {
    if i == |options| || (options[i].isRequired && ValueOf(stores, i).None?) then i
    else MissingFrom(options, stores, i + 1)
  }

  function EmptyFrom(ps: seq<Positional>, values: seq<seq<string>>, i: nat): (r: nat)
    requires i <= |ps| == |values|
    ensures i <= r <= |ps|
    decreases |ps| - i
  {
    if i == |ps| || (ps[i].isRequired && values[i] == []) then i else EmptyFrom(ps, values, i + 1)
  }

  /** The default values stored, from option `i` on. */
  function WithDefaults(options: seq<OptionSpec>, stores: seq<Store>, i: nat): (r: seq<Store>)
    requires i <= |options|
    decreases |options| - i
  {
    if i == |options| then stores
    else if ValueOf(stores, i).None? && options[i].defaultValue.Some? then
      WithDefaults(options, stores + [(i, options[i].defaultValue.value)], i + 1)
    else WithDefaults(options, stores, i + 1)
  }

  /** The stores and positional values of a command line, or its first error. */
  datatype Parsed = Accepted(stores: seq<Store>, values: seq<seq<string>>) | Rejected(error: Error)

  function ParseArgs(t: Table, args: seq<string>): (r: Parsed)
    ensures r.Accepted? ==> |r.values| == |t.positionals|
  {
    match ScanOptions(t, args, [])
    case Failed(e) => Rejected(e)
    case Scanned(stores, rest) =>
      match Place(t.positionals, 0, rest, Empty(|t.positionals|))
      case Overflow(arg) => Rejected(UnexpectedPositional(arg))
      case Placed(values) =>
        match FirstMissing(t, stores, values)
        case Some(e) => Rejected(e)
        case None => Accepted(WithDefaults(t.options, stores, 0), values)
  }

  // ----- The parser object -----

  class ArgumentParser {
    const table: Table
    var values: seq<Option<string>>
    var positionalValues: seq<seq<string>>
    var args: seq<string>
    /** The callback invocations, in order. */
    var calls: seq<Store>

    /** Every option holds what was stored in it last. */
    ghost predicate Valid()
      reads this
    {
      && |values| == |table.options| && |positionalValues| == |table.positionals|
      && forall i :: 0 <= i < |values| ==> values[i] == ValueOf(calls, i)
    }

    constructor (table: Table)
      ensures Valid() && this.table == table && calls == [] && positionalValues == Empty(|table.positionals|)
    {
      this.table := table;
      values := seq(|table.options|, i => None);
      positionalValues, args, calls := Empty(|table.positionals|), [], [];
    }

    method FindOption(name: string) returns (r: Option<nat>)
      ensures r == Find(table.options, name)
    {
      var options := table.options;
      assert options[0..] == options;
      for i := 0 to |options|
        invariant Find(options, name) ==
          match Find(options[i..], name) case None => None case Some(j) => Some(i + j)
      {
        assert options[i..][1..] == options[i+1..];
        if Matches(options[i], name) { return Some(i); }
      }
      return None;
    }

    /** Sets the value of an option and calls its callback. */
    method SetValue(i: nat, value: string)
      requires Valid() && i < |values|
      modifies this`values, this`calls
      ensures Valid() && calls == old(calls) + [(i, value)]
    {
      values := values[i := Some(value)];
      calls := calls + [(i, value)];
      assert calls[..|calls|-1] == old(calls);
    }

    method ParseShortOptions(arg: string, currentArg: nat) returns (e: Option<Error>, current: nat)
      requires Valid() && IsShort(arg) && currentArg < |args|
      modifies this`values, this`calls
      ensures e.None? ==> Valid()
      ensures match TakeShort(table, arg[1..], args[currentArg + 1..], old(calls))
              case Bad(error) => e == Some(error)
              case Took(stores, used) => e.None? && calls == stores && current == currentArg + used
    {
      current := currentArg;
      var options := arg[1..];
      var i := 0;
      assert options[0..] == options;
      while i < |options|
        invariant i <= |options| && Valid() && current == currentArg
        invariant TakeShort(table, options[i..], args[currentArg + 1..], calls)
          == TakeShort(table, options, args[currentArg + 1..], old(calls))
      {
        assert options[i..][1..] == options[i+1..];
        var c := options[i];
        var opt := FindOption([c]);
        if opt.None? { return Some(UnknownOption([c])), current; }
        if table.options[opt.value].hasArg {
          var value := "";
          if i + 1 < |options| {
            value := options[i+1..];
          } else if current + 1 < |args| {
            current := current + 1;
            value := args[current];
          }
          if value == "" { return Some(RequiresArgument(opt.value)), current; }
          SetValue(opt.value, value);
          return None, current;
        }
        SetValue(opt.value, "");
        i := i + 1;
      }
      return None, current;
    }

    method ParseLongOption(arg: string, currentArg: nat) returns (e: Option<Error>, current: nat)
      requires Valid() && IsLong(arg) && currentArg < |args|
      modifies this`values, this`calls
      ensures e.None? ==> Valid()
      ensures match TakeLong(table, arg[2..], args[currentArg + 1..], old(calls))
              case Bad(error) => e == Some(error)
              case Took(stores, used) => e.None? && calls == stores && current == currentArg + used
    {
      current := currentArg;
      var text := arg[2..];
      var equalPos := IndexOf(text, '=');
      var name := text[..equalPos];
      var opt := FindOption(name);
      if opt.None? { return Some(UnknownOption(name)), current; }
      if table.options[opt.value].hasArg {
        var value := "";
        if equalPos < |text| {
          value := text[equalPos+1..];
        } else {
          current := current + 1;
          if current < |args| { value := args[current]; }
        }
        if value == "" { return Some(RequiresArgument(opt.value)), current; }
        SetValue(opt.value, value);
      } else {
        SetValue(opt.value, "");
      }
      return None, current;
    }

    method ParsePositional(arg: string, index: nat) returns (e: Option<Error>, index': nat)
      requires |positionalValues| == |table.positionals|
      modifies this`positionalValues
      ensures index < |table.positionals| ==>
        && e.None? && index' == (if table.positionals[index].allowsMultiple then index else index + 1)
        && positionalValues == old(positionalValues)[index := old(positionalValues)[index] + [arg]]
      ensures index >= |table.positionals| ==> e == Some(UnexpectedPositional(arg))
    {
      index' := index;
      if index >= |positionalValues| { return Some(UnexpectedPositional(arg)), index; }
      positionalValues := positionalValues[index := positionalValues[index] + [arg]];
      if !table.positionals[index].allowsMultiple { index' := index + 1; }
      e := None;
    }

    method ValidateRequirements() returns (e: Option<Error>)
      requires Valid()
      ensures e == FirstMissing(table, calls, positionalValues)
    {
      for i := 0 to |table.options|
        invariant MissingFrom(table.options, calls, i) == MissingFrom(table.options, calls, 0)
      {
        if table.options[i].isRequired && values[i].None? { return Some(MissingOption(i)); }
      }
      for i := 0 to |table.positionals|
        invariant EmptyFrom(table.positionals, positionalValues, i) == EmptyFrom(table.positionals, positionalValues, 0)
      {
        if table.positionals[i].isRequired && positionalValues[i] == [] { return Some(MissingPositional(i)); }
      }
      return None;
    }

    method ApplyDefaults()
      requires Valid()
      modifies this`values, this`calls
      ensures Valid() && calls == WithDefaults(table.options, old(calls), 0)
    {
      for i := 0 to |table.options|
        invariant Valid() && WithDefaults(table.options, calls, i) == WithDefaults(table.options, old(calls), 0)
      {
        var d := table.options[i].defaultValue;
        if values[i].None? && d.Some? { SetValue(i, d.value); }
      }
    }

    /** One argument that is not positional, with the value it takes. */
    method ParseOption(arg: string, currentArg: nat) returns (e: Option<Error>, current: nat)
      requires Valid() && currentArg < |args| && arg == args[currentArg] && (IsLong(arg) || IsShort(arg))
      modifies this`values, this`calls
      ensures e.Some? ==> ScanOptions(table, args[currentArg..], old(calls)) == Failed(e.value)
      ensures e.None? ==>
        && Valid() && currentArg <= current < |args|
        && ScanOptions(table, args[currentArg..], old(calls)) == ScanOptions(table, args[current + 1..], calls)
    {
      ScanStep(table, args, currentArg, calls);
      hide ScanOptions, TakeLong, TakeShort;
      if IsLong(arg) {
        e, current := ParseLongOption(arg, currentArg);
      } else {
        e, current := ParseShortOptions(arg, currentArg);
      }
    }

    /** The whole loop: options until the first positional, positionals from there on. */
    method Parse(argv: seq<string>) returns (e: Option<Error>)
      requires Valid() && calls == [] && positionalValues == Empty(|table.positionals|) && argv != []
      modifies this
      ensures match ParseArgs(table, argv[1..])
              case Rejected(error) => e == Some(error)
              case Accepted(stores, placed) => e.None? && Valid() && calls == stores && positionalValues == placed
    {
      hide FirstMissing, WithDefaults, ScanOptions;
      args := argv[1..];
      var currentArg, positionalIndex, positionals := 0, 0, false;
      ghost var all, empty := args, positionalValues;
      assert all[0..] == all;
      while currentArg < |args|
        invariant currentArg <= |args| && args == all && Valid()
        invariant !positionals ==>
          && positionalIndex == 0 && positionalValues == empty
          && ScanOptions(table, all[currentArg..], calls) == ScanOptions(table, all, [])
        invariant positionals ==>
          && ScanOptions(table, all, []).Scanned? && calls == ScanOptions(table, all, []).stores
          && Place(table.positionals, positionalIndex, all[currentArg..], positionalValues)
             == Place(table.positionals, 0, ScanOptions(table, all, []).rest, empty)
        decreases |args| - currentArg
      {
        var arg := args[currentArg];
        if !positionals {
          if IsLong(arg) || IsShort(arg) {
            e, currentArg := ParseOption(arg, currentArg);
            if e.Some? { return; }
          } else {
            ScanStops(table, all[currentArg..], calls);
            positionals := true;
          }
        }
        if positionals {
          assert all[currentArg..][1..] == all[currentArg + 1..];
          e, positionalIndex := ParsePositional(arg, positionalIndex);
          if e.Some? { return; }
        }
        currentArg := currentArg + 1;
      }
      ScanStops(table, all[|all|..], calls);
      e := ValidateRequirements();
      if e.Some? { return; }
      ApplyDefaults();
    }
  }

  lemma {:induction false} ScanStops(t: Table, args: seq<string>, stores: seq<Store>)
    requires args == [] || !(IsLong(args[0]) || IsShort(args[0]))
    ensures ScanOptions(t, args, stores) == Scanned(stores, args)
  {
  }

  lemma {:induction false} ScanStep(t: Table, args: seq<string>, i: nat, stores: seq<Store>)
    requires i < |args| && (IsLong(args[i]) || IsShort(args[i]))
    ensures ScanOptions(t, args[i..], stores) ==
      match (if IsLong(args[i]) then TakeLong(t, args[i][2..], args[i + 1..], stores)
             else TakeShort(t, args[i][1..], args[i + 1..], stores))
      case Bad(e) => Failed(e)
      case Took(stores', used) => ScanOptions(t, args[i + used + 1..], stores')
  {
    hide TakeLong, TakeShort;
    var left := args[i..];
    assert left[1..] == args[i + 1..];
    var taken := TakeOne(t, left, stores);
    if taken.Took? { DropDrop(args, i, taken.used + 1); }
  }

}
