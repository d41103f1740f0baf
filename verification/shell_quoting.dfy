/** Quoting an argument for the shell (src/util.h:21-73), against the way the shell reads it
    back: token recognition and quote removal as in sections 2.2.1 to 2.2.3, 2.3 and 2.6.7 of
    the POSIX.1-2017 Shell Command Language. */
module ShellQuoting {
  import opened Options

  // ----- The shell's side -----

  datatype Mode = Outside | InSingle | InDouble

  predicate IsBlank(c: char) { c == ' ' || c == '\t' || c == '\n' }

  /** Unquoted, these start an operator, an expansion or a pattern. */
  predicate IsActive(c: char) { c in "&|;<>()$`*?[" }

  /** What a backslash escapes inside double quotes. */
  predicate IsEscapable(c: char) { c in "$`\"\\" }

  function Extended(word: Option<string>, c: char): (r: Option<string>) {
    Some((if word.Some? then word.value else "") + [c])
  }

  function Opened(word: Option<string>): (r: Option<string>) { if word.Some? then word else Some("") }

  function Closed(done: seq<string>, word: Option<string>): (r: seq<string>) {
    if word.Some? then done + [word.value] else done
  }

  /** The words of a command line with their quotes removed; None when a quote is not closed
      or the line is more than plain words. `word` is the word being read, `done` those
      before it. */
  function Read(s: string, mode: Mode, word: Option<string>, done: seq<string>): (r: Option<seq<string>>)
    decreases |s|
  {
    if s == "" then (if mode == Outside then Some(Closed(done, word)) else None)
    else
      var c, rest := s[0], s[1..];
      match mode
      case InSingle =>
        if c == '\'' then Read(rest, Outside, word, done) else Read(rest, InSingle, Extended(word, c), done)
      case InDouble =>
        if c == '"' then Read(rest, Outside, word, done)
        else if c == '$' || c == '`' then None
        else if c == '\\' && rest != "" && rest[0] == '\n' then Read(rest[1..], InDouble, word, done)
        else if c == '\\' && rest != "" && IsEscapable(rest[0]) then
          Read(rest[1..], InDouble, Extended(word, rest[0]), done)
        else Read(rest, InDouble, Extended(word, c), done)
      case Outside =>
        if IsBlank(c) then Read(rest, Outside, None, Closed(done, word))
        else if c == '\'' then Read(rest, InSingle, Opened(word), done)
        else if c == '"' then Read(rest, InDouble, Opened(word), done)
        else if c == '\\' then
          if rest == "" then None
          else if rest[0] == '\n' then Read(rest[1..], Outside, word, done)
          else Read(rest[1..], Outside, Extended(word, rest[0]), done)
        else if IsActive(c) || (c == '#' && word.None?) then None
        else Read(rest, Outside, Extended(word, c), done)
  }

  function ShellWords(line: string): (r: Option<seq<string>>) { Read(line, Outside, None, []) }

  // ----- The program's side -----

  predicate IsSpecial(c: char) { c in " \t\n'\"\\$`&|><*?()[];!#" }

  predicate NeedsEscaping(arg: string) { exists i :: 0 <= i < |arg| && IsSpecial(arg[i]) }

  function SingleQuoted(arg: string): (r: string) {
    if arg == "" then "" else (if arg[0] == '\'' then "'\\''" else [arg[0]]) + SingleQuoted(arg[1..])
  }

  predicate TakesBackslash(c: char) { c in "$`\"\\!" }

  function DoubleQuoted(arg: string): (r: string) {
    if arg == "" then "" else (if TakesBackslash(arg[0]) then ['\\', arg[0]] else [arg[0]]) + DoubleQuoted(arg[1..])
  }

  function Escaped(arg: string, singleQuote: bool, force: bool): (r: string) {
    if !force && !NeedsEscaping(arg) then arg
    else if singleQuote then "'" + SingleQuoted(arg) + "'"
    else "\"" + DoubleQuoted(arg) + "\""
  }

  method EscapeCmdArg(arg: string, singleQuote: bool, force: bool) returns (escaped: string)
    ensures escaped == Escaped(arg, singleQuote, force)
  {
    if arg == "" && !force { return arg; }
    var needsEscaping := force;
    if !needsEscaping {
      for i := 0 to |arg|
        invariant !needsEscaping && forall j :: 0 <= j < i ==> !IsSpecial(arg[j])
      {
        if IsSpecial(arg[i]) {
          needsEscaping := true;
          break;
        }
      }
    }
    if !needsEscaping { return arg; }
    assert arg[0..] == arg;
    if singleQuote {
      escaped := "'";
      for i := 0 to |arg|
        invariant escaped + SingleQuoted(arg[i..]) == "'" + SingleQuoted(arg)
      {
        assert arg[i..][1..] == arg[i+1..];
        Grouped(escaped, if arg[i] == '\'' then "'\\''" else [arg[i]], SingleQuoted(arg[i+1..]));
        if arg[i] == '\'' { escaped := escaped + "'\\''"; } else { escaped := escaped + [arg[i]]; }
      }
      escaped := escaped + "'";
    } else {
      escaped := "\"";
      for i := 0 to |arg|
        invariant escaped + DoubleQuoted(arg[i..]) == "\"" + DoubleQuoted(arg)
      {
        assert arg[i..][1..] == arg[i+1..];
        Grouped(escaped, if TakesBackslash(arg[i]) then ['\\', arg[i]] else [arg[i]], DoubleQuoted(arg[i+1..]));
        if TakesBackslash(arg[i]) { escaped := escaped + "\\"; }
        escaped := escaped + [arg[i]];
      }
      escaped := escaped + "\"";
    }
  }

  lemma Grouped(a: string, b: string, c: string)
    ensures a + (b + c) == a + b + c
    ensures |b| == 2 ==> a + b == a + [b[0]] + [b[1]]
  {
  }

  // ----- Reading back -----

  /** Inside single quotes everything is taken as it is. */
  lemma {:induction false} SingleReadsBack(arg: string, word: string, rest: string, done: seq<string>)
    ensures Read(SingleQuoted(arg) + "'" + rest, InSingle, Some(word), done) == Read(rest, Outside, Some(word + arg), done)
  {
    var s := SingleQuoted(arg) + "'" + rest;
    if arg == "" {
      assert s == "'" + rest && s[1..] == rest;
      assert word + arg == word;
    } else {
      var c, more := arg[0], SingleQuoted(arg[1..]) + "'" + rest;
      assert word + [c] + arg[1..] == word + arg;
      SingleReadsBack(arg[1..], word + [c], rest, done);
      if c == '\'' {
        assert s == "'\\''" + more;
        QuoteReadsBack(more, word, done);
      } else {
        assert s == [c] + more && s[1..] == more;
      }
    }
  }

  /** A quote is closed, written with a backslash, and reopened. */
  lemma {:induction false} QuoteReadsBack(more: string, word: string, done: seq<string>)
    ensures Read("'\\''" + more, InSingle, Some(word), done) == Read(more, InSingle, Some(word + "'"), done)
  {
    var s := "'\\''" + more;
    assert s[1..] == "\\''" + more;
    assert s[1..][1..] == "''" + more;
    assert s[1..][1..][1..] == "'" + more;
    assert s[1..][1..][1..][1..] == more;
    assert Read(s, InSingle, Some(word), done) == Read("\\''" + more, Outside, Some(word), done);
    assert Read("\\''" + more, Outside, Some(word), done) == Read("'" + more, Outside, Some(word + "'"), done);
    assert Read("'" + more, Outside, Some(word + "'"), done) == Read(more, InSingle, Some(word + "'"), done);
  }

  /** Inside double quotes the backslash before an exclamation mark stays. */
  function DoubleRead(arg: string): (r: string) {
    if arg == "" then "" else DoubleChar(arg[0]) + DoubleRead(arg[1..])
  }

  /** What one character becomes on the way through double quotes. */
  function DoubleChar(c: char): (r: string) { if c == '!' then "\\!" else [c] }

  lemma {:induction false} EscapedCharReads(c: char, more: string, word: string, done: seq<string>)
    requires TakesBackslash(c)
    ensures Read(['\\', c] + more, InDouble, Some(word), done) == Read(more, InDouble, Some(word + DoubleChar(c)), done)
  {
    var s := ['\\', c] + more;
    assert s[1..] == [c] + more && s[1..][1..] == more;
    assert word + "\\" + "!" == word + "\\!";
  }

  lemma {:induction false} PlainCharReads(c: char, more: string, word: string, done: seq<string>)
    requires !TakesBackslash(c)
    ensures Read([c] + more, InDouble, Some(word), done) == Read(more, InDouble, Some(word + DoubleChar(c)), done)
  {
    assert ([c] + more)[1..] == more;
  }

  lemma GroupedTail(a: string, b: string, rest: string)
    ensures a + b + "\"" + rest == a + (b + "\"" + rest)
  {
  }

  lemma {:induction false} DoubleReadsBack(arg: string, word: string, rest: string, done: seq<string>)
    ensures Read(DoubleQuoted(arg) + "\"" + rest, InDouble, Some(word), done)
      == Read(rest, Outside, Some(word + DoubleRead(arg)), done)
  {
    var s := DoubleQuoted(arg) + "\"" + rest;
    if arg == "" {
      assert s == "\"" + rest && s[1..] == rest;
      assert word + "" == word;
    } else {
      hide Read;
      var c, more := arg[0], DoubleQuoted(arg[1..]) + "\"" + rest;
      DoubleReadsBack(arg[1..], word + DoubleChar(c), rest, done);
      Grouped(word, DoubleChar(c), DoubleRead(arg[1..]));
      GroupedTail(if TakesBackslash(c) then ['\\', c] else [c], DoubleQuoted(arg[1..]), rest);
      if TakesBackslash(c) { EscapedCharReads(c, more, word, done); } else { PlainCharReads(c, more, word, done); }
    }
  }

  /** Without special characters nothing needs quotes. */
  lemma {:induction false} PlainReadsBack(arg: string, word: Option<string>, rest: string, done: seq<string>)
    requires !NeedsEscaping(arg) && arg != ""
    ensures Read(arg + rest, Outside, word, done) == Read(rest, Outside, Some((if word.Some? then word.value else "") + arg), done)
  {
    var before := if word.Some? then word.value else "";
    assert !IsSpecial(arg[0]);
    assert (arg + rest)[1..] == arg[1..] + rest;
    if arg[1..] == "" {
      assert arg == [arg[0]] && arg[1..] + rest == rest;
    } else {
      forall i | 0 <= i < |arg[1..]| ensures !IsSpecial(arg[1..][i]) { assert !IsSpecial(arg[i+1]); }
      PlainReadsBack(arg[1..], Some(before + [arg[0]]), rest, done);
      assert before + [arg[0]] + arg[1..] == before + arg;
    }
  }

  /** The shell reads an argument quoted in single-quote mode back as that very word. */
  lemma {:induction false} SingleQuoteReads(arg: string, force: bool, rest: string, done: seq<string>)
    requires arg != "" || force
    ensures Read(Escaped(arg, true, force) + rest, Outside, None, done) == Read(rest, Outside, Some(arg), done)
  {
    if force || NeedsEscaping(arg) {
      SingleReadsBack(arg, "", rest, done);
      var s := Escaped(arg, true, force) + rest;
      assert s == "'" + (SingleQuoted(arg) + "'" + rest);
      assert s[1..] == SingleQuoted(arg) + "'" + rest;
      assert "" + arg == arg;
    } else {
      PlainReadsBack(arg, None, rest, done);
      assert "" + arg == arg;
    }
  }

  /** One word, equal to the argument. */
  lemma SingleQuoteRoundTrip(arg: string, force: bool)
    requires arg != "" || force
    ensures ShellWords(Escaped(arg, true, force)) == Some([arg])
  {
    SingleQuoteReads(arg, force, "", []);
    assert Closed([], Some(arg)) == [arg];
    assert Escaped(arg, true, force) + "" == Escaped(arg, true, force);
  }

  /** Without force an empty argument is not quoted and so disappears. */
  lemma EmptyDisappears(singleQuote: bool)
    ensures ShellWords(Escaped("", singleQuote, false)) == Some([])
  {
  }

  function JoinEscaped(args: seq<string>, force: bool): (r: string) {
    if args == [] then ""
    else if |args| == 1 then Escaped(args[0], true, force)
    else Escaped(args[0], true, force) + " " + JoinEscaped(args[1..], force)
  }

  lemma {:induction false} BlankEnds(word: string, rest: string, done: seq<string>)
    ensures Read(" " + rest, Outside, Some(word), done) == Read(rest, Outside, None, done + [word])
  {
    assert (" " + rest)[1..] == rest;
  }

  lemma {:induction false} CommandLineReads(args: seq<string>, force: bool, done: seq<string>)
    requires forall i :: 0 <= i < |args| ==> args[i] != "" || force
    ensures Read(JoinEscaped(args, force), Outside, None, done) == Some(done + args)
  {
    hide Escaped;
    if |args| == 0 {
      assert done + args == done;
    } else if |args| == 1 {
      SingleQuoteReads(args[0], force, "", done);
      assert Escaped(args[0], true, force) + "" == Escaped(args[0], true, force);
      assert args == [args[0]];
    } else {
      var rest := " " + JoinEscaped(args[1..], force);
      SingleQuoteReads(args[0], force, rest, done);
      CommandLineReads(args[1..], force, done + [args[0]]);
      assert JoinEscaped(args, force) == Escaped(args[0], true, force) + rest;
      hide Read;
      BlankEnds(args[0], JoinEscaped(args[1..], force), done);
      assert done + [args[0]] + args[1..] == done + args;
    }
  }

  /** A whole command of quoted arguments is read back as those arguments. */
  lemma CommandRoundTrip(args: seq<string>, force: bool)
    requires forall i :: 0 <= i < |args| ==> args[i] != "" || force
    ensures ShellWords(JoinEscaped(args, force)) == Some(args)
  {
    CommandLineReads(args, force, []);
    assert [] + args == args;
  }

  lemma {:induction false} DoubleReadSame(arg: string)
    ensures |DoubleRead(arg)| >= |arg|
    ensures '!' in arg <==> |DoubleRead(arg)| > |arg|
    ensures '!' !in arg ==> DoubleRead(arg) == arg
  {
    if arg != "" {
      DoubleReadSame(arg[1..]);
      assert arg == [arg[0]] + arg[1..];
    }
  }

  lemma MarkIsSpecial(arg: string)
    ensures '!' in arg ==> NeedsEscaping(arg)
  {
    if i :| 0 <= i < |arg| && arg[i] == '!' { assert IsSpecial(arg[i]); }
  }

  /** In double-quote mode this holds exactly for the arguments without exclamation mark. */
  lemma DoubleQuoteRoundTrip(arg: string, force: bool)
    requires arg != "" || force
    ensures ShellWords(Escaped(arg, false, force)) == Some([arg]) <==> '!' !in arg
  {
    DoubleReadSame(arg);
    if force || NeedsEscaping(arg) {
      DoubleReadsBack(arg, "", "", []);
      var s := Escaped(arg, false, force);
      assert s == "\"" + (DoubleQuoted(arg) + "\"" + "");
      assert s[1..] == DoubleQuoted(arg) + "\"" + "";
      assert "" + DoubleRead(arg) == DoubleRead(arg);
      assert Closed([], Some(DoubleRead(arg))) == [DoubleRead(arg)];
      assert ShellWords(s) == Some([DoubleRead(arg)]);
    } else {
      PlainReadsBack(arg, None, "", []);
      assert arg + "" == arg && "" + arg == arg;
      assert Closed([], Some(arg)) == [arg];
      MarkIsSpecial(arg);
    }
  }
}
