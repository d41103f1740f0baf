/** The JSON parser as the cursor over its input that src/json.h implements, and the printer
    as the stream it appends to. Each method is proved to agree with the function of
    JsonModel on the text the cursor has left. */
module JsonParsers {
  import opened Collections
  import opened Text
  import opened Decimal
  import opened JsonModel

  /** A parsed value, or the position a JsonParseError reports. */
  datatype Outcome<+T> = Done(value: T) | Error(pos: int)

  lemma SkipAtToken(s: string)
    requires !IsSpace(Current(s))
    ensures SkipSpace(s) == s
  {
  }

  lemma MembersMeans(s: string, acc: seq<Member>, isDouble: string -> bool)
    ensures var t := SkipSpace(s);
      var key := KeyAt(t);
      Members(s, acc, isDouble) ==
        if Current(t) == '}' then Ok(JObject(acc), Next(t))
        else if key.Fail? then Fail(key.left)
        else
          var v := Value(key.rest, isDouble);
          if v.Fail? then Fail(v.left) else MembersAfter(v.rest, Emplace(acc, key.value, v.value), isDouble)
  {
  }

  /** What follows a member. */
  function MembersAfter(s: string, acc: seq<Member>, isDouble: string -> bool): (r: Parsed<JsonValue>) {
    var t := SkipSpace(s);
    if Current(t) == ',' then Members(Next(t), acc, isDouble)
    else if Current(t) == '}' then Ok(JObject(acc), Next(t))
    else Fail(|t|)
  }

  class JsonParser {
    const input: string
    /** Whether the library converts a text to a double in full. */
    const isDouble: string -> bool
    var pos: nat

    constructor (input: string, isDouble: string -> bool)
      ensures Valid() && this.input == input && this.isDouble == isDouble && Left() == input
    {
      this.input, this.isDouble, pos := input, isDouble, 0;
    }

    ghost predicate Valid()
      reads this
    {
      pos <= |input|
    }

    /** The text not consumed yet. */
    ghost function Left(): (r: string)
      requires Valid()
      reads this
      ensures |r| == |input| - pos
    {
      input[pos..]
    }

    /** The method's result and the cursor are what the function says of the text that was left. */
    ghost predicate Agrees<T>(r: Outcome<T>, spec: Parsed<T>)
      requires Valid()
      reads this
    {
      match spec
      case Ok(v, rest) => r == Done(v) && Left() == rest
      case Fail(left) => r == Error(|input| - left)
    }

    predicate Eof()
      requires Valid()
      reads this
    {
      pos >= |input|
    }

    function Here(): (c: char)
      requires Valid()
      reads this
      ensures c == Current(Left())
    {
      if !Eof() then input[pos] else '\0'
    }

    method Next(n: nat)
      requires Valid()
      modifies this
      ensures Valid() && pos == if old(pos) + n <= |input| then old(pos) + n else |input|
      ensures old(pos) + n <= |input| ==> Left() == old(Left())[n..]
      ensures n == 1 ==> Left() == JsonModel.Next(old(Left()))
    {
      var i := 0;
      while i < n
        invariant Valid() && i <= n && pos == old(pos) + i
      {
        if Eof() { return; }
        pos := pos + 1;
        i := i + 1;
      }
      DropDrop(input, old(pos), n);
    }

    method SkipWhitespace()
      requires Valid()
      modifies this
      ensures Valid() && pos >= old(pos)
      ensures Left() == SkipSpace(old(Left()))
    {
      while !Eof() && IsSpace(input[pos])
        invariant Valid() && pos >= old(pos)
        invariant SkipSpace(Left()) == SkipSpace(old(Left()))
        decreases |input| - pos
      {
        Next(1);
      }
    }

    method ParseString() returns (r: Outcome<string>)
      requires Valid()
      modifies this
      ensures Valid() && pos >= old(pos)
      ensures Agrees(r, StringAt(old(Left())))
    {
      var str := "";
      Next(1);
      while !Eof()
        invariant Valid() && pos >= old(pos)
        invariant StringBody(Left(), str) == StringAt(old(Left()))
        decreases |input| - pos
      {
        var c := Here();
        if c == '"' {
          Next(1);
          return Done(str);
        }
        if c == '\\' {
          Next(1);
          var e := Unescape(Here());
          if e.Fail? { return Error(pos); }
          str := str + [e.value];
          Next(1);
        } else {
          str := str + [c];
          Next(1);
        }
      }
      return Error(pos);
    }

    method ParseBoolean() returns (r: Outcome<bool>)
      requires Valid()
      modifies this
      ensures Valid() && pos >= old(pos)
      ensures if "true" <= old(Left()) then r == Done(true) && Left() == old(Left())[4..]
              else if "false" <= old(Left()) then r == Done(false) && Left() == old(Left())[5..]
              else r == Error(old(pos))
    {
      var start, rem := pos, |input| - pos;
      if rem >= 4 && input[pos..pos + 4] == "true" {
        WordHere("true");
        Next(4);
        return Done(true);
      }
      if rem >= 5 && input[pos..pos + 5] == "false" {
        WordHere("false");
        Next(5);
        return Done(false);
      }
      NoWordHere("true");
      NoWordHere("false");
      return Error(start);
    }

    method ParseNull() returns (r: Outcome<JsonValue>)
      requires Valid()
      modifies this
      ensures Valid() && pos >= old(pos)
      ensures Agrees(r, LiteralAt(old(Left()), "null", JNull))
    {
      var start, rem := pos, |input| - pos;
      if rem >= 4 && input[pos..pos + 4] == "null" {
        WordHere("null");
        Next(4);
        return Done(JNull);
      }
      NoWordHere("null");
      return Error(start);
    }

    lemma WordHere(word: string)
      requires Valid() && pos + |word| <= |input| && input[pos..pos + |word|] == word
      ensures word <= Left()
    {
      assert Left()[..|word|] == word;
    }

    lemma NoWordHere(word: string)
      requires Valid()
      ensures word <= Left() ==> pos + |word| <= |input| && input[pos..pos + |word|] == word
    {
      if word <= Left() { assert input[pos..pos + |word|] == Left()[..|word|]; }
    }

    /** The sign, digits, points and exponent marks of a number. */
    method ScanNumber() returns (isDbl: bool)
      requires Valid()
      modifies this
      ensures Valid() && pos - old(pos) == NumberLength(old(Left()))
      ensures isDbl <==> IsDoubleText(input[old(pos)..pos])
    {
      isDbl := false;
      if Here() == '-' { Next(1); }
      ghost var first := pos;
      while !Eof()
        invariant Valid() && old(pos) <= first <= pos
        invariant ScanLength(input[first..]) == pos - first + ScanLength(Left())
        invariant isDbl <==> IsDoubleText(input[old(pos)..pos])
        decreases |input| - pos
      {
        ghost var before, left := pos, Left();
        var c := Here();
        if IsDigit(c) {
          Next(1);
        } else if c == '.' {
          isDbl := true;
          Next(1);
        } else if c == 'e' || c == 'E' {
          isDbl := true;
          Next(1);
          c := Here();
          if c == '+' || c == '-' {
            Next(1);
            assert left[2..] == Left();
          }
        } else {
          break;
        }
        DoubleTextGrows(old(pos), before, pos);
      }
      if Current(old(Left())) == '-' { assert old(Left())[1..] == input[first..]; }
    }

    method ParseNumber() returns (r: Outcome<JsonValue>)
      requires Valid()
      modifies this
      ensures Valid() && pos >= old(pos)
      ensures Agrees(r, NumberAt(old(Left()), isDouble))
    {
      hide NumberLength, IsDoubleText, AllDigits, IntValue;
      var start := pos;
      var isDbl := ScanNumber();
      var text := input[start..pos];
      assert text == old(Left())[..pos - start];
      DropDrop(input, start, pos - start);
      if !isDbl {
        if Unsigned(text) == "" || !AllDigits(Unsigned(text)) { return Error(start); }
        if INT_MIN <= IntValue(text) <= INT_MAX { return Done(JInt(IntValue(text))); }
      }
      if !isDouble(text) { return Error(start); }
      return Done(JDouble(text));
    }

    lemma DoubleTextGrows(start: nat, before: nat, now: nat)
      requires start <= before < now <= |input| && now <= before + 2
      requires now == before + 2 ==> input[before] in {'e', 'E'} && input[before + 1] in {'+', '-'}
      ensures IsDoubleText(input[start..now]) <==> IsDoubleText(input[start..before]) || input[before] in {'.', 'e', 'E'}
    {
      var short, long := input[start..before], input[start..now];
      assert forall i :: 0 <= i < |short| ==> long[i] == short[i];
      assert long[before - start] == input[before];
      if IsDoubleText(long) && input[before] !in {'.', 'e', 'E'} {
        var i :| 0 <= i < |long| && long[i] in {'.', 'e', 'E'};
        assert i < |short| && short[i] == long[i];
      }
    }

    method ParseValue() returns (r: Outcome<JsonValue>)
      requires Valid()
      modifies this
      ensures Valid() && pos >= old(pos)
      ensures Agrees(r, Value(old(Left()), isDouble))
      decreases |input| - pos, 1
    {
      hide StringAt, Elements, Members, NumberAt, SkipSpace;
      SkipWhitespace();
      var c := Here();
      if c == '{' {
        r := ParseObject();
      } else if c == '[' {
        r := ParseArray();
      } else if c == '"' {
        var s := ParseString();
        if s.Error? { return Error(s.pos); }
        r := Done(JString(s.value));
      } else if c == 't' || c == 'f' {
        var b := ParseBoolean();
        if b.Error? { return Error(b.pos); }
        r := Done(JBool(b.value));
      } else if c == 'n' {
        r := ParseNull();
      } else if NumberStart(c) {
        r := ParseNumber();
      } else {
        r := Error(pos);
      }
    }

    /** The key of a member and the colon after it. */
    method ParseKey() returns (r: Outcome<string>)
      requires Valid()
      modifies this
      ensures Valid() && pos >= old(pos)
      ensures Agrees(r, KeyAt(old(Left())))
    {
      hide StringAt, SkipSpace;
      r := ParseString();
      if r.Error? { return; }
      SkipWhitespace();
      if Here() != ':' { return Error(pos); }
      Next(1);
    }

    method ParseObject() returns (r: Outcome<JsonValue>)
      requires Valid() && !Eof()
      modifies this
      ensures Valid() && pos >= old(pos)
      ensures Agrees(r, Members(old(Left())[1..], [], isDouble))
      decreases |input| - pos, 0
    {
      hide StringAt, Value, SkipSpace, Emplace, KeyAt, Current, Members;
      var obj := [];
      Next(1);
      while true
        invariant Valid() && pos > old(pos)
        invariant Members(Left(), obj, isDouble) == Members(old(Left())[1..], [], isDouble)
        decreases |input| - pos
      {
        MembersMeans(Left(), obj, isDouble);
        SkipWhitespace();
        if Here() == '}' {
          Next(1);
          break;
        }
        var key := ParseKey();
        if key.Error? { return Error(key.pos); }
        var v := ParseValue();
        if v.Error? { return Error(v.pos); }
        obj := Emplace(obj, key.value, v.value);
        SkipWhitespace();
        if Here() == ',' {
          Next(1);
        } else if Here() != '}' {
          return Error(pos);
        } else {
          SkipAtToken(Left());
          MembersMeans(Left(), obj, isDouble);
        }
      }
      return Done(JObject(obj));
    }

    method ParseArray() returns (r: Outcome<JsonValue>)
      requires Valid() && !Eof()
      modifies this
      ensures Valid() && pos >= old(pos)
      ensures Agrees(r, Elements(old(Left())[1..], [], isDouble))
      decreases |input| - pos, 0
    {
      hide Value, SkipSpace;
      var arr := [];
      Next(1);
      while true
        invariant Valid() && pos > old(pos)
        invariant Elements(Left(), arr, isDouble) == Elements(old(Left())[1..], [], isDouble)
        decreases |input| - pos
      {
        SkipWhitespace();
        if Here() == ']' {
          Next(1);
          break;
        }
        var v := ParseValue();
        if v.Error? { return Error(v.pos); }
        arr := arr + [v.value];
        SkipWhitespace();
        if Here() == ',' {
          Next(1);
        } else if Here() != ']' {
          return Error(pos);
        } else {
          SkipAtToken(Left());
        }
      }
      return Done(JArray(arr));
    }

    /** The whole input; the cursor is at its end on success. */
    method Run() returns (r: Outcome<JsonValue>)
      requires Valid() && pos == 0
      modifies this
      ensures Valid() && Agrees(r, Parse(input, isDouble))
    {
      hide Value;
      assert Left() == input;
      r := ParseValue();
      if r.Done? && !Eof() { return Error(pos); }
    }
  }

  // ----- Printing -----

  /** What the loop over an array still has to write. */
  ghost function ItemsLeft(items: seq<JsonValue>, i: nat, printDouble: string -> string): (r: string)
    requires i <= |items|
  {
    (if 0 < i < |items| then "," else "") + PrintItems(items[i..], printDouble)
  }

  ghost function MembersLeft(members: seq<Member>, i: nat, printDouble: string -> string): (r: string)
    requires i <= |members|
  {
    (if 0 < i < |members| then "," else "") + PrintMembers(members[i..], printDouble)
  }

  ghost function Comma(i: nat): (r: string) { if i > 0 then "," else "" }

  lemma ItemsLeftStep(items: seq<JsonValue>, i: nat, printDouble: string -> string)
    requires i < |items|
    ensures ItemsLeft(items, i, printDouble) == Comma(i) + Print(items[i], printDouble) + ItemsLeft(items, i + 1, printDouble)
  {
    hide Print;
    assert items[i..][1..] == items[i + 1..];
  }

  lemma MembersLeftStep(members: seq<Member>, i: nat, printDouble: string -> string)
    requires i < |members|
    ensures MembersLeft(members, i, printDouble) ==
      Comma(i) + PrintMember(members[i], printDouble) + MembersLeft(members, i + 1, printDouble)
  {
    hide PrintMember;
    assert members[i..][1..] == members[i + 1..];
  }

  lemma AppendSplit(os: string, done: string, before: string, this_: string, left: string)
    requires os + (before + this_ + left) == done
    ensures os + before + this_ + left == done
  {
  }

  lemma EscapeStep(s: string, i: nat)
    requires i < |s|
    ensures EscapeAll(s[i..]) == Escape(s[i]) + EscapeAll(s[i + 1..])
  {
    hide Escape;
    assert s[i..][1..] == s[i + 1..];
  }

  lemma EscapeEnds(s: string)
    ensures EscapeAll(s[0..]) == EscapeAll(s) && EscapeAll(s[|s|..]) == ""
  {
    assert s[0..] == s;
  }

  lemma AppendAll(os: string, a: string, b: string, c: string)
    ensures os + a + b + c == os + (a + b + c)
  {
  }

  lemma ItemsLeftEnds(items: seq<JsonValue>, printDouble: string -> string)
    ensures ItemsLeft(items, 0, printDouble) == PrintItems(items, printDouble) && ItemsLeft(items, |items|, printDouble) == ""
  {
    assert items[0..] == items;
  }

  lemma MembersLeftEnds(members: seq<Member>, printDouble: string -> string)
    ensures MembersLeft(members, 0, printDouble) == PrintMembers(members, printDouble)
    ensures MembersLeft(members, |members|, printDouble) == ""
  {
    assert members[0..] == members;
  }

  class JsonValuePrinter {
    /** How the stream writes a double. */
    const printDouble: string -> string
    var os: string

    constructor (printDouble: string -> string)
      ensures os == "" && this.printDouble == printDouble
    {
      this.printDouble, os := printDouble, "";
    }

    method PrintText(s: string)
      modifies this
      ensures os == old(os) + PrintString(s)
    {
      hide Escape, EscapeAll;
      os := os + "\"";
      EscapeEnds(s);
      var i := 0;
      while i < |s|
        invariant i <= |s|
        invariant os + EscapeAll(s[i..]) == old(os) + "\"" + EscapeAll(s)
      {
        EscapeStep(s, i);
        ConcatAssociative(os, Escape(s[i]), EscapeAll(s[i + 1..]));
        os := os + Escape(s[i]);
        i := i + 1;
      }
      os := os + "\"";
      AppendAll(old(os), "\"", EscapeAll(s), "\"");
    }

    method PrintJson(v: JsonValue)
      modifies this
      ensures os == old(os) + Print(v, printDouble)
      decreases v, 0
    {
      match v {
        case JNull => os := os + "null";
        case JBool(b) => os := os + (if b then "true" else "false");
        case JInt(i) => os := os + PrintInt(i);
        case JDouble(d) => os := os + printDouble(d);
        case JString(s) => PrintText(s);
        case JArray(items) => PrintArray(items);
        case JObject(members) => PrintObject(members);
      }
    }

    method PrintArray(items: seq<JsonValue>)
      modifies this
      ensures os == old(os) + ("[" + PrintItems(items, printDouble) + "]")
      decreases items, 1
    {
      hide Print, PrintItems;
      os := os + "[";
      ItemsLeftEnds(items, printDouble);
      var i, first := 0, true;
      ghost var all := os + ItemsLeft(items, 0, printDouble);
      while i < |items|
        invariant i <= |items| && first == (i == 0)
        invariant os + ItemsLeft(items, i, printDouble) == all
      {
        ItemsLeftStep(items, i, printDouble);
        AppendSplit(os, all, Comma(i), Print(items[i], printDouble), ItemsLeft(items, i + 1, printDouble));
        if !first { os := os + ","; }
        first := false;
        PrintJson(items[i]);
        i := i + 1;
      }
      assert os + "" == os;
      os := os + "]";
      AppendAll(old(os), "[", PrintItems(items, printDouble), "]");
    }

    method PrintPair(m: Member)
      modifies this
      ensures os == old(os) + PrintMember(m, printDouble)
      decreases m, 1
    {
      hide Print, PrintString;
      PrintText(m.0);
      os := os + ":";
      PrintJson(m.1);
      AppendAll(old(os), PrintString(m.0), ":", Print(m.1, printDouble));
    }

    method PrintObject(members: seq<Member>)
      modifies this
      ensures os == old(os) + ("{" + PrintMembers(members, printDouble) + "}")
      decreases members, 2
    {
      hide Print, PrintString, PrintMembers;
      os := os + "{";
      MembersLeftEnds(members, printDouble);
      var i, first := 0, true;
      ghost var all := os + MembersLeft(members, 0, printDouble);
      while i < |members|
        invariant i <= |members| && first == (i == 0)
        invariant os + MembersLeft(members, i, printDouble) == all
      {
        MembersLeftStep(members, i, printDouble);
        AppendSplit(os, all, Comma(i), PrintMember(members[i], printDouble), MembersLeft(members, i + 1, printDouble));
        if !first { os := os + ","; }
        first := false;
        PrintPair(members[i]);
        i := i + 1;
      }
      assert os + "" == os;
      os := os + "}";
      AppendAll(old(os), "{", PrintMembers(members, printDouble), "}");
    }
  }
}
