/** JSON values, and the parser and printer of src/json.h as functions on the text that is
    left to read. Doubles are kept as the text they were written in: whether the library
    can convert such a text is given by a parameter. */
module JsonModel {
  import opened Text
  import opened Decimal
  import opened Ordering

  /** Objects list their members in key order, as the underlying map iterates. */
  datatype JsonValue =
    | JNull
    | JBool(b: bool)
    | JInt(i: int)
    | JDouble(text: string)
    | JString(s: string)
    | JArray(items: seq<JsonValue>)
    | JObject(members: seq<Member>)

  type Member = (string, JsonValue)

  /** A result and the text after it, or a failure and how much text was left there. */
  datatype Parsed<+T> = Ok(value: T, rest: string) | Fail(left: nat)

  const INT_MIN := -0x8000_0000
  const INT_MAX := 0x7fff_ffff

  /** std::map::emplace: an existing key keeps its value. */
  function Emplace(ms: seq<Member>, k: string, v: JsonValue): (r: seq<Member>) {
    if ms == [] then [(k, v)]
    else if ms[0].0 == k then ms
    else if Less(k, ms[0].0) then [(k, v)] + ms
    else [ms[0]] + Emplace(ms[1..], k, v)
  }

  function SkipSpace(s: string): (r: string)
    ensures |r| <= |s|
  {
    if s != "" && IsSpace(s[0]) then SkipSpace(s[1..]) else s
  }

  /** The current character, NUL at the end. */
  function Current(s: string): (c: char) { if s == "" then '\0' else s[0] }

  function Next(s: string): (r: string)
    ensures |r| <= |s| && (s != "" ==> |r| < |s|)
  {
    if s == "" then s else s[1..]
  }

  // ----- Strings -----

  /** The character an escape stands for. */
  function Unescape(c: char): (r: Parsed<char>) {
    match c
    case '"' => Ok('"', "")
    case '\\' => Ok('\\', "")
    case '/' => Ok('/', "")
    case 'b' => Ok('\U{8}', "")
    case 'f' => Ok('\U{c}', "")
    case 'n' => Ok('\n', "")
    case 'r' => Ok('\r', "")
    case 't' => Ok('\t', "")
    case _ => Fail(0)
  }

  /** The rest of a string, after `acc`; the opening quote has been skipped. */
  function StringBody(s: string, acc: string): (r: Parsed<string>)
    ensures r.Ok? ==> |r.rest| < |s|
    decreases |s|
  {
    if s == "" then Fail(0)
    else if s[0] == '"' then Ok(acc, s[1..])
    else if s[0] == '\\' then
      var e := Unescape(Current(s[1..]));
      if e.Fail? then Fail(|s| - 1) else StringBody(Next(s[1..]), acc + [e.value])
    else StringBody(s[1..], acc + [s[0]])
  }

  /** Skips one character, whatever it is, and reads up to the closing quote. */
  function StringAt(s: string): (r: Parsed<string>)
    ensures r.Ok? ==> |r.rest| < |s|
  {
    StringBody(Next(s), "")
  }

  // ----- Numbers -----

  /** The length of the number text at the front, its sign aside. */
  function ScanLength(s: string): (n: nat)
    ensures n <= |s|
    decreases |s|
  {
    if s == "" then 0
    else if IsDigit(s[0]) || s[0] == '.' then 1 + ScanLength(s[1..])
    else if s[0] == 'e' || s[0] == 'E' then
      if |s| > 1 && (s[1] == '+' || s[1] == '-') then 2 + ScanLength(s[2..]) else 1 + ScanLength(s[1..])
    else 0
  }

  function NumberLength(s: string): (n: nat)
    ensures n <= |s|
  {
    if s != "" && s[0] == '-' then 1 + ScanLength(s[1..]) else ScanLength(s)
  }

  predicate IsDoubleText(lexeme: string) { exists i :: 0 <= i < |lexeme| && lexeme[i] in {'.', 'e', 'E'} }

  function Unsigned(lexeme: string): (r: string) {
    if lexeme != "" && lexeme[0] == '-' then lexeme[1..] else lexeme
  }

  function IntValue(lexeme: string): (r: int)
    requires AllDigits(Unsigned(lexeme))
  {
    if lexeme != "" && lexeme[0] == '-' then -(DigitsValue(Unsigned(lexeme)) as int) else DigitsValue(Unsigned(lexeme))
  }

  /** The value of a number text: a 32-bit integer, or else a double if the library can
      convert the text. */
  function NumberValue(lexeme: string, isDouble: string -> bool): (r: Parsed<JsonValue>) {
    if !IsDoubleText(lexeme) && (Unsigned(lexeme) == "" || !AllDigits(Unsigned(lexeme))) then Fail(0)
    else if !IsDoubleText(lexeme) && INT_MIN <= IntValue(lexeme) <= INT_MAX then Ok(JInt(IntValue(lexeme)), "")
    else if isDouble(lexeme) then Ok(JDouble(lexeme), "")
    else Fail(0)
  }

  function NumberAt(s: string, isDouble: string -> bool): (r: Parsed<JsonValue>) {
    var n := NumberLength(s);
    var v := NumberValue(s[..n], isDouble);
    if v.Fail? then Fail(|s|) else Ok(v.value, s[n..])
  }

  // ----- Values -----

  function LiteralAt(s: string, word: string, v: JsonValue): (r: Parsed<JsonValue>) {
    if word <= s then Ok(v, s[|word|..]) else Fail(|s|)
  }

  predicate NumberStart(c: char) { c == '-' || IsDigit(c) }

  function Value(s: string, isDouble: string -> bool): (r: Parsed<JsonValue>)
    ensures r.Ok? ==> |r.rest| < |s|
    decreases |s|, 0
  {
    var t := SkipSpace(s);
    var c := Current(t);
    if c == '{' then Members(t[1..], [], isDouble)
    else if c == '[' then Elements(t[1..], [], isDouble)
    else if c == '"' then
      var str := StringAt(t);
      if str.Fail? then Fail(str.left) else Ok(JString(str.value), str.rest)
    else if c == 't' || c == 'f' then
      if "true" <= t then Ok(JBool(true), t[4..]) else LiteralAt(t, "false", JBool(false))
    else if c == 'n' then LiteralAt(t, "null", JNull)
    else if NumberStart(c) then
      ScanStarts(t);
      NumberAt(t, isDouble)
    else Fail(|t|)
  }

  lemma ScanStarts(s: string)
    requires NumberStart(Current(s))
    ensures NumberLength(s) > 0
  {
  }

  /** A key and the colon after it. */
  function KeyAt(s: string): (r: Parsed<string>)
    ensures r.Ok? ==> |r.rest| < |s|
  {
    var key := StringAt(s);
    if key.Fail? then key
    else
      var colon := SkipSpace(key.rest);
      if Current(colon) != ':' then Fail(|colon|) else Ok(key.value, colon[1..])
  }

  /** The members of an object still to come, after `acc`. */
  function Members(s: string, acc: seq<Member>, isDouble: string -> bool): (r: Parsed<JsonValue>)
    ensures r.Ok? ==> |r.rest| < |s|
    decreases |s|, 1
  {
    var t := SkipSpace(s);
    if Current(t) == '}' then Ok(JObject(acc), t[1..])
    else
      var key := KeyAt(t);
      if key.Fail? then Fail(key.left)
      else
        var v := Value(key.rest, isDouble);
        if v.Fail? then Fail(v.left)
        else
          var after := SkipSpace(v.rest);
          var more := Emplace(acc, key.value, v.value);
          if Current(after) == ',' then Members(after[1..], more, isDouble)
          else if Current(after) == '}' then Ok(JObject(more), after[1..])
          else Fail(|after|)
  }

  /** The elements of an array still to come, after `acc`. */
  function Elements(s: string, acc: seq<JsonValue>, isDouble: string -> bool): (r: Parsed<JsonValue>)
    ensures r.Ok? ==> |r.rest| < |s|
    decreases |s|, 1
  {
    var t := SkipSpace(s);
    if Current(t) == ']' then Ok(JArray(acc), t[1..])
    else
      var v := Value(t, isDouble);
      if v.Fail? then Fail(v.left)
      else
        var after := SkipSpace(v.rest);
        if Current(after) == ',' then Elements(after[1..], acc + [v.value], isDouble)
        else if Current(after) == ']' then Ok(JArray(acc + [v.value]), after[1..])
        else Fail(|after|)
  }

  /** A whole text; nothing may follow the value. */
  function Parse(s: string, isDouble: string -> bool): (r: Parsed<JsonValue>) {
    var v := Value(s, isDouble);
    if v.Ok? && v.rest != "" then Fail(|v.rest|) else v
  }

  // ----- Printing -----

  function Escape(c: char): (r: string) {
    match c
    case '"' => "\\\""
    case '\\' => "\\\\"
    case '\U{8}' => "\\b"
    case '\U{c}' => "\\f"
    case '\n' => "\\n"
    case '\r' => "\\r"
    case '\t' => "\\t"
    case _ => [c]
  }

  function EscapeAll(s: string): (r: string) {
    if s == "" then "" else Escape(s[0]) + EscapeAll(s[1..])
  }

  function PrintString(s: string): (r: string) { "\"" + EscapeAll(s) + "\"" }

  function PrintInt(i: int): (r: string) {
    if i < 0 then "-" + PrintNat(-i) else PrintNat(i)
  }

  /** `printDouble` gives the text the stream writes for a double. */
  function Print(v: JsonValue, printDouble: string -> string): (r: string)
    decreases v, 0
  {
    match v
    case JNull => "null"
    case JBool(b) => if b then "true" else "false"
    case JInt(i) => PrintInt(i)
    case JDouble(d) => printDouble(d)
    case JString(s) => PrintString(s)
    case JArray(items) => "[" + PrintItems(items, printDouble) + "]"
    case JObject(members) => "{" + PrintMembers(members, printDouble) + "}"
  }

  /** Items separated by commas. */
  function PrintItems(items: seq<JsonValue>, printDouble: string -> string): (r: string)
    decreases items, 1
  {
    if items == [] then ""
    else if |items| == 1 then Print(items[0], printDouble)
    else Print(items[0], printDouble) + "," + PrintItems(items[1..], printDouble)
  }

  function PrintMember(m: Member, printDouble: string -> string): (r: string)
    decreases m, 1
  {
    PrintString(m.0) + ":" + Print(m.1, printDouble)
  }

  function PrintMembers(members: seq<Member>, printDouble: string -> string): (r: string)
    decreases members, 2
  {
    if members == [] then ""
    else if |members| == 1 then PrintMember(members[0], printDouble)
    else PrintMember(members[0], printDouble) + "," + PrintMembers(members[1..], printDouble)
  }
}
