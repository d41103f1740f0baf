/** The texts the parser accepts, as syntax trees that record every liberty it grants: white
    space around tokens, a comma before a closing bracket, any character in place of the
    quote that opens a key, leading zeros. A tree has a text and a meaning. */
module JsonGrammar {
  import opened Collections
  import opened Text
  import opened JsonModel

  datatype Piece = Plain(c: char) | Escaped(c: char)

  datatype Src =
    | SNull
    | SBool(b: bool)
    | SNumber(lexeme: string)
    | SString(body: seq<Piece>)
    | SArray(items: seq<SItem>, trailing: bool, close: string)
    | SObject(members: seq<SMember>, trailing: bool, close: string)

  datatype SItem = SItem(before: string, value: Src, after: string)

  datatype SMember = SMember(before: string, quote: char, key: seq<Piece>, afterKey: string,
                             beforeValue: string, value: Src, after: string)

  // ----- Text -----

  function PieceText(p: Piece): (r: string) {
    match p
    case Plain(c) => [c]
    case Escaped(c) => ['\\', c]
  }

  function PiecesText(body: seq<Piece>): (r: string) {
    if body == [] then "" else PieceText(body[0]) + PiecesText(body[1..])
  }

  function Render(src: Src): (r: string)
    decreases src, 0
  {
    match src
    case SNull => "null"
    case SBool(b) => if b then "true" else "false"
    case SNumber(lexeme) => lexeme
    case SString(body) => "\"" + PiecesText(body) + "\""
    case SArray(items, trailing, close) => "[" + RenderItems(items, trailing, close)
    case SObject(members, trailing, close) => "{" + RenderMembers(members, trailing, close)
  }

  /** The items to come and the closing bracket; no items are left after a trailing comma. */
  function RenderItems(items: seq<SItem>, trailing: bool, close: string): (r: string)
    decreases items, 1
  {
    if items == [] then close + "]"
    else items[0].before + Render(items[0].value) + (items[0].after + ItemsTail(items, trailing, close))
  }

  /** What follows the first of some items. */
  function ItemsTail(items: seq<SItem>, trailing: bool, close: string): (r: string)
    requires items != []
    decreases items, 0
  {
    if |items| == 1 && !trailing then close + "]" else "," + RenderItems(items[1..], trailing, close)
  }

  function RenderMembers(members: seq<SMember>, trailing: bool, close: string): (r: string)
    decreases members, 1
  {
    if members == [] then close + "}"
    else
      var m := members[0];
      m.before + ([m.quote] + PiecesText(m.key) + "\"" +
        (m.afterKey + ":" + (m.beforeValue + Render(m.value) + (m.after + MembersTail(members, trailing, close)))))
  }

  function MembersTail(members: seq<SMember>, trailing: bool, close: string): (r: string)
    requires members != []
    decreases members, 0
  {
    if |members| == 1 && !trailing then close + "}" else "," + RenderMembers(members[1..], trailing, close)
  }

  // ----- Meaning -----

  /** What the character after a backslash stands for, by section 7 of RFC 8259. The `\u` escapes
      of that section are not among them: the parser refuses them. */
  function Escapes(): (r: map<char, char>) {
    map['"' := '"', '\\' := '\\', '/' := '/',
        'b' := '\U{8}', 'f' := '\U{c}', 'n' := '\U{a}', 'r' := '\U{d}', 't' := '\U{9}']
  }

  ghost predicate PieceOk(p: Piece) {
    match p
    case Plain(c) => c != '"' && c != '\\'
    case Escaped(c) => c in Escapes()
  }

  ghost predicate PiecesOk(body: seq<Piece>) {
    forall i :: 0 <= i < |body| ==> PieceOk(body[i])
  }

  function PieceMeaning(p: Piece): (c: char) {
    match p
    case Plain(c) => c
    case Escaped(c) => if c in Escapes() then Escapes()[c] else c
  }

  function PiecesMeaning(body: seq<Piece>): (r: string) {
    if body == [] then "" else [PieceMeaning(body[0])] + PiecesMeaning(body[1..])
  }

  ghost predicate NumberOk(lexeme: string, isDouble: string -> bool) {
    NumberStart(Current(lexeme)) && NumberLength(lexeme) == |lexeme| && NumberValue(lexeme, isDouble).Ok?
  }

  ghost predicate Wf(src: Src, isDouble: string -> bool)
    decreases src, 0
  {
    match src
    case SNull => true
    case SBool(_) => true
    case SNumber(lexeme) => NumberOk(lexeme, isDouble)
    case SString(body) => PiecesOk(body)
    case SArray(items, _, close) => AllSpace(close) && WfItems(items, isDouble)
    case SObject(members, _, close) => AllSpace(close) && WfMembers(members, isDouble)
  }

  ghost predicate WfItems(items: seq<SItem>, isDouble: string -> bool)
    decreases items, 1
  {
    items == [] || (AllSpace(items[0].before) && AllSpace(items[0].after) && Wf(items[0].value, isDouble)
                    && WfItems(items[1..], isDouble))
  }

  ghost predicate MemberOk(m: SMember, isDouble: string -> bool)
    decreases m, 1
  {
    && AllSpace(m.before) && AllSpace(m.afterKey) && AllSpace(m.beforeValue) && AllSpace(m.after)
    && !IsSpace(m.quote) && m.quote != '}' && PiecesOk(m.key) && Wf(m.value, isDouble)
  }

  ghost predicate WfMembers(members: seq<SMember>, isDouble: string -> bool)
    decreases members, 2
  {
    members == [] || (MemberOk(members[0], isDouble) && WfMembers(members[1..], isDouble))
  }

  function Meaning(src: Src, isDouble: string -> bool): (v: JsonValue)
    decreases src, 0
  {
    match src
    case SNull => JNull
    case SBool(b) => JBool(b)
    case SNumber(lexeme) => var v := NumberValue(lexeme, isDouble); if v.Ok? then v.value else JNull
    case SString(body) => JString(PiecesMeaning(body))
    case SArray(items, _, _) => JArray(ItemsMeaning(items, isDouble))
    case SObject(members, _, _) => JObject(MembersMeaning([], members, isDouble))
  }

  function ItemsMeaning(items: seq<SItem>, isDouble: string -> bool): (r: seq<JsonValue>)
    decreases items, 1
  {
    if items == [] then [] else [Meaning(items[0].value, isDouble)] + ItemsMeaning(items[1..], isDouble)
  }

  /** Members entered one after the other; a repeated key keeps its first value. */
  function MembersMeaning(acc: seq<Member>, members: seq<SMember>, isDouble: string -> bool): (r: seq<Member>)
    decreases members, 1
  {
    if members == [] then acc
    else MembersMeaning(Emplace(acc, PiecesMeaning(members[0].key), Meaning(members[0].value, isDouble)), members[1..], isDouble)
  }

  // ----- Every tree's text parses to its meaning -----

  /** What may come right after a value: nothing, white space, or a closing or separating
      token. */
  ghost predicate Stops(rest: string) {
    rest == "" || IsSpace(rest[0]) || rest[0] in {',', ']', '}'}
  }

  lemma {:induction false} SkipSpaceStops(ws: string, s: string)
    requires AllSpace(ws) && (s == "" || !IsSpace(s[0]))
    ensures SkipSpace(ws + s) == s
  {
    if ws == "" {
      assert ws + s == s;
    } else {
      assert (ws + s)[1..] == ws[1..] + s;
      SkipSpaceStops(ws[1..], s);
    }
  }

  /** The parser knows exactly these escapes. */
  lemma EscapesRead(c: char)
    ensures Unescape(c).Ok? <==> c in Escapes()
    ensures c in Escapes() ==> Unescape(c) == Ok(Escapes()[c], "")
  {
  }

  lemma {:induction false} StringComplete(body: seq<Piece>, rest: string, acc: string)
    requires PiecesOk(body)
    ensures StringBody(PiecesText(body) + "\"" + rest, acc) == Ok(acc + PiecesMeaning(body), rest)
    decreases |body|
  {
    PiecesUnfold(body, rest, acc);
    hide *;
    if body == [] {
      QuoteEnds(rest, acc);
    } else {
      PieceRead(body[0], PiecesText(body[1..]) + "\"" + rest, acc);
      StringComplete(body[1..], rest, acc + [PieceMeaning(body[0])]);
    }
  }

  lemma PiecesUnfold(body: seq<Piece>, rest: string, acc: string)
    ensures body == [] ==> PiecesText(body) + "\"" + rest == "\"" + rest && acc + PiecesMeaning(body) == acc
    ensures body != [] ==>
      && PiecesText(body) + "\"" + rest == PieceText(body[0]) + (PiecesText(body[1..]) + "\"" + rest)
      && acc + [PieceMeaning(body[0])] + PiecesMeaning(body[1..]) == acc + PiecesMeaning(body)
      && (PiecesOk(body) ==> PieceOk(body[0]) && PiecesOk(body[1..]))
  {
    hide PieceText, PieceMeaning, PieceOk;
  }

  lemma {:induction false} QuoteEnds(rest: string, acc: string)
    ensures StringBody("\"" + rest, acc) == Ok(acc, rest)
  {
    assert ("\"" + rest)[1..] == rest;
  }

  lemma {:induction false} PieceRead(p: Piece, tail: string, acc: string)
    requires PieceOk(p)
    ensures StringBody(PieceText(p) + tail, acc) == StringBody(tail, acc + [PieceMeaning(p)])
  {
    var s := PieceText(p) + tail;
    match p {
      case Plain(x) => assert s[0] == x && s[1..] == tail;
      case Escaped(x) =>
        EscapesRead(x);
        hide Escapes, Unescape;
        assert s[0] == '\\' && s[1..][0] == x && s[1..][1..] == tail;
    }
  }

  /** A string is refused where an unknown escape names its character, or at the end of a text
      without a closing quote. */
  lemma {:induction false} StringRefused(body: seq<Piece>, tail: string, acc: string)
    requires PiecesOk(body)
    requires tail == "" || (tail[0] == '\\' && (|tail| == 1 || tail[1] !in Escapes()))
    ensures StringBody(PiecesText(body) + tail, acc) == Fail(if tail == "" then 0 else |tail| - 1)
    decreases |body|
  {
    if body == [] {
      assert PiecesText(body) + tail == tail;
      if tail != "" {
        EscapesRead(Current(tail[1..]));
        assert '\0' !in Escapes();
      }
    } else {
      PieceThenText(body, tail);
      hide *;
      PieceRead(body[0], PiecesText(body[1..]) + tail, acc);
      StringRefused(body[1..], tail, acc + [PieceMeaning(body[0])]);
    }
  }

  lemma PieceThenText(body: seq<Piece>, tail: string)
    requires body != [] && PiecesOk(body)
    ensures PiecesText(body) + tail == PieceText(body[0]) + (PiecesText(body[1..]) + tail)
    ensures PieceOk(body[0]) && PiecesOk(body[1..])
  {
    hide PieceText, PieceOk;
  }

  /** A value is refused at its first character when that starts no value, when the word it starts is
      not there, and when the number text it starts stands for no number. */
  lemma ValueRefused(ws: string, t: string, isDouble: string -> bool)
    requires AllSpace(ws) && (t == "" || !IsSpace(t[0]))
    requires
      || t == "" || (t[0] !in {'{', '[', '"', 't', 'f', 'n', '-'} && !IsDigit(t[0]))
      || (t[0] in {'t', 'f', 'n'} && !("true" <= t) && !("false" <= t) && !("null" <= t))
      || (NumberStart(t[0]) && NumberValue(t[..NumberLength(t)], isDouble).Fail?)
    ensures Value(ws + t, isDouble) == Fail(|t|)
  {
    hide Elements, Members, StringBody, NumberValue, NumberLength;
    SkipSpaceStops(ws, t);
    assert t != "" && t[0] == 't' ==> !("false" <= t) && !("null" <= t);
  }

  lemma {:induction false} ScanComplete(a: string, rest: string)
    requires ScanLength(a) == |a| && Stops(rest)
    ensures ScanLength(a + rest) == |a|
    decreases |a|
  {
    if a == "" {
      assert a + rest == rest;
    } else if (a[0] == 'e' || a[0] == 'E') && |a| > 1 && (a[1] == '+' || a[1] == '-') {
      assert (a + rest)[1] == a[1] && (a + rest)[2..] == a[2..] + rest;
      ScanComplete(a[2..], rest);
    } else {
      assert (a + rest)[1..] == a[1..] + rest;
      if |a| > 1 { assert (a + rest)[1] == a[1]; }
      ScanComplete(a[1..], rest);
    }
  }

  lemma NumberComplete(lexeme: string, rest: string, isDouble: string -> bool)
    requires NumberOk(lexeme, isDouble) && Stops(rest)
    ensures NumberAt(lexeme + rest, isDouble) == Ok(NumberValue(lexeme, isDouble).value, rest)
  {
    var s := lexeme + rest;
    if lexeme[0] == '-' {
      assert s[1..] == lexeme[1..] + rest;
      ScanComplete(lexeme[1..], rest);
    } else {
      ScanComplete(lexeme, rest);
    }
    assert NumberLength(s) == |lexeme|;
    assert s[..|lexeme|] == lexeme && s[|lexeme|..] == rest;
  }

  /** A value's text starts with one of the characters the parser branches on. */
  lemma RenderStart(src: Src, isDouble: string -> bool)
    requires Wf(src, isDouble)
    ensures Render(src) != "" && !IsSpace(Render(src)[0]) && Render(src)[0] !in {',', ':', ']', '}'}
  {
  }

  /** What the parser does with a value depends on its first character. */
  lemma ValueBranch(ws: string, t: string, isDouble: string -> bool)
    requires AllSpace(ws) && t != "" && !IsSpace(t[0])
    ensures t[0] == '[' ==> Value(ws + t, isDouble) == Elements(t[1..], [], isDouble)
    ensures t[0] == '{' ==> Value(ws + t, isDouble) == Members(t[1..], [], isDouble)
    ensures t[0] == '"' && StringBody(t[1..], "").Ok? ==>
      Value(ws + t, isDouble) == Ok(JString(StringBody(t[1..], "").value), StringBody(t[1..], "").rest)
    ensures "true" <= t ==> Value(ws + t, isDouble) == Ok(JBool(true), t[4..])
    ensures "false" <= t && !("true" <= t) ==> Value(ws + t, isDouble) == Ok(JBool(false), t[5..])
    ensures "null" <= t ==> Value(ws + t, isDouble) == Ok(JNull, t[4..])
    ensures NumberStart(t[0]) ==> Value(ws + t, isDouble) == NumberAt(t, isDouble)
  {
    hide Elements, Members, StringBody, NumberAt;
    SkipSpaceStops(ws, t);
  }

  lemma {:induction false} ScalarComplete(ws: string, src: Src, rest: string, isDouble: string -> bool)
    requires AllSpace(ws) && Wf(src, isDouble) && Stops(rest) && !src.SArray? && !src.SObject?
    ensures Value(ws + (Render(src) + rest), isDouble) == Ok(Meaning(src, isDouble), rest)
  {
    var t := Render(src) + rest;
    RenderStart(src, isDouble);
    assert t[0] == Render(src)[0];
    hide Value, Elements, Members, StringBody, NumberAt, AllSpace, Stops, PiecesText, PiecesMeaning, PiecesOk;
    ValueBranch(ws, t, isDouble);
    match src {
      case SNull => assert t[..4] == "null" && t[4..] == rest;
      case SBool(b) => BoolComplete(b, rest);
      case SNumber(lexeme) => NumberComplete(lexeme, rest, isDouble);
      case SString(body) => QuotedComplete(body, rest);
    }
  }

  lemma QuotedComplete(body: seq<Piece>, rest: string)
    requires PiecesOk(body)
    ensures var t := "\"" + PiecesText(body) + "\"" + rest;
      t[0] == '"' && StringBody(t[1..], "") == Ok(PiecesMeaning(body), rest)
  {
    hide StringBody, PiecesText, PiecesMeaning, PiecesOk;
    var t := "\"" + PiecesText(body) + "\"" + rest;
    assert t[1..] == PiecesText(body) + "\"" + rest;
    StringComplete(body, rest, "");
    assert "" + PiecesMeaning(body) == PiecesMeaning(body);
  }

  lemma Bracketed(c: char, body: string, rest: string)
    ensures ([c] + body + rest)[0] == c && ([c] + body + rest)[1..] == body + rest
  {
  }

  lemma {:induction false} ValueComplete(ws: string, src: Src, rest: string, isDouble: string -> bool)
    requires AllSpace(ws) && Wf(src, isDouble) && Stops(rest)
    ensures Value(ws + (Render(src) + rest), isDouble) == Ok(Meaning(src, isDouble), rest)
    decreases src, 0
  {
    hide Value, Elements, Members, RenderItems, RenderMembers, AllSpace, Stops, StringBody, NumberAt;
    match src {
      case SArray(items, trailing, close) =>
        Bracketed('[', RenderItems(items, trailing, close), rest);
        ValueBranch(ws, Render(src) + rest, isDouble);
        ItemsComplete(items, trailing, close, rest, [], isDouble);
        assert [] + ItemsMeaning(items, isDouble) == ItemsMeaning(items, isDouble);
      case SObject(members, trailing, close) =>
        Bracketed('{', RenderMembers(members, trailing, close), rest);
        ValueBranch(ws, Render(src) + rest, isDouble);
        MembersComplete(members, trailing, close, rest, [], isDouble);
      case _ => ScalarComplete(ws, src, rest, isDouble);
    }
  }

  lemma BoolComplete(b: bool, rest: string)
    ensures b ==> "true" <= "true" + rest && ("true" + rest)[4..] == rest
    ensures !b ==> !("true" <= "false" + rest) && "false" <= "false" + rest && ("false" + rest)[5..] == rest
  {
    if !b {
      var t := "false" + rest;
      assert t[0] == 'f' && "true"[0] == 't';
    }
  }

  lemma {:induction false} ItemsComplete(items: seq<SItem>, trailing: bool, close: string, rest: string,
                                         acc: seq<JsonValue>, isDouble: string -> bool)
    requires AllSpace(close) && WfItems(items, isDouble)
    ensures Elements(RenderItems(items, trailing, close) + rest, acc, isDouble)
         == Ok(JArray(acc + ItemsMeaning(items, isDouble)), rest)
    decreases items, 1
  {
    if items == [] {
      ClosingFound(close, ']', rest);
      assert close + "]" + rest == close + ([']'] + rest);
      assert acc + [] == acc;
    } else {
      ItemComplete(items, trailing, close, rest, acc, isDouble);
    }
  }

  lemma ClosingFound(close: string, c: char, rest: string)
    requires AllSpace(close) && !IsSpace(c)
    ensures SkipSpace(close + ([c] + rest)) == [c] + rest && ([c] + rest)[1..] == rest
  {
    SkipSpaceStops(close, [c] + rest);
  }

  /** Elements, when the first item's text is `ws`, a value, white space and `tail`. */
  lemma ElementStep(before: string, value: string, after: string, tail: string, v: JsonValue, acc: seq<JsonValue>,
                    isDouble: string -> bool)
    requires AllSpace(before) && AllSpace(after)
    requires value != "" && !IsSpace(value[0]) && value[0] != ']'
    requires tail != "" && !IsSpace(tail[0])
    requires Value("" + (value + (after + tail)), isDouble) == Ok(v, after + tail)
    ensures Elements(before + (value + (after + tail)), acc, isDouble) ==
      if tail[0] == ',' then Elements(tail[1..], acc + [v], isDouble)
      else if tail[0] == ']' then Ok(JArray(acc + [v]), tail[1..])
      else Fail(|tail|)
  {
    hide Value;
    var t := value + (after + tail);
    SkipSpaceStops(before, t);
    assert "" + t == t;
    SkipSpaceStops(after, tail);
  }

  lemma ItemTextOf(items: seq<SItem>, trailing: bool, close: string, rest: string)
    requires items != []
    ensures RenderItems(items, trailing, close) + rest
         == items[0].before + (Render(items[0].value) + (items[0].after + (ItemsTail(items, trailing, close) + rest)))
  {
    hide Render, ItemsTail;
  }

  lemma {:induction false} ItemComplete(items: seq<SItem>, trailing: bool, close: string, rest: string,
                                        acc: seq<JsonValue>, isDouble: string -> bool)
    requires items != [] && AllSpace(close) && WfItems(items, isDouble)
    ensures Elements(RenderItems(items, trailing, close) + rest, acc, isDouble)
         == Ok(JArray(acc + ItemsMeaning(items, isDouble)), rest)
    decreases items, 0
  {
    var i, tail := items[0], ItemsTail(items, trailing, close) + rest;
    var v := Meaning(i.value, isDouble);
    var last := |items| == 1 && !trailing;
    RenderStart(i.value, isDouble);
    TailShape(i.after, close, last, if last then "" else RenderItems(items[1..], trailing, close), ']', rest);
    ItemTextOf(items, trailing, close, rest);
    ValueComplete("", i.value, i.after + tail, isDouble);
    hide Value, Elements, Render, RenderItems, Stops, Wf, Meaning;
    assert ItemsMeaning(items, isDouble) == [v] + ItemsMeaning(items[1..], isDouble);
    ConcatAssociative(acc, [v], ItemsMeaning(items[1..], isDouble));
    if last {
      assert tail == close + "]" + rest;
      LastElement(i.before, Render(i.value), i.after, close, rest, v, acc, isDouble);
      assert items[1..] == [];
      assert acc + [v] + [] == acc + [v];
    } else {
      CommaTail(RenderItems(items[1..], trailing, close), rest);
      ElementStep(i.before, Render(i.value), i.after, tail, v, acc, isDouble);
      ItemsComplete(items[1..], trailing, close, rest, acc + [v], isDouble);
    }
  }

  lemma CommaTail(more: string, rest: string)
    ensures var tail := "," + more + rest; tail != "" && tail[0] == ',' && tail[1..] == more + rest
  {
  }

  /** After an item there is white space, a comma or the closing bracket. */
  lemma TailShape(after: string, close: string, last: bool, more: string, c: char, rest: string)
    requires AllSpace(after) && AllSpace(close) && c in {']', '}'}
    ensures Stops(after + ((if last then close + [c] else "," + more) + rest))
  {
    var t := after + ((if last then close + [c] else "," + more) + rest);
    if after != "" { assert t[0] == after[0]; }
  }

  lemma LastElement(before: string, value: string, after: string, close: string, rest: string, v: JsonValue,
                    acc: seq<JsonValue>, isDouble: string -> bool)
    requires AllSpace(before) && AllSpace(after) && AllSpace(close)
    requires value != "" && !IsSpace(value[0]) && value[0] != ']'
    requires Value("" + (value + (after + (close + "]" + rest))), isDouble) == Ok(v, after + (close + "]" + rest))
    ensures Elements(before + (value + (after + (close + "]" + rest))), acc, isDouble) == Ok(JArray(acc + [v]), rest)
  {
    var tail := "]" + rest;
    assert after + (close + "]" + rest) == (after + close) + tail;
    ElementStep(before, value, after + close, tail, v, acc, isDouble);
    assert tail[1..] == rest;
  }

  /** Members, when the first member is spelled out and followed by white space and `tail`. */
  lemma MemberStep(m: SMember, after: string, tail: string, v: JsonValue, acc: seq<Member>, isDouble: string -> bool)
    requires MemberOk(m, isDouble) && AllSpace(after)
    requires tail != "" && !IsSpace(tail[0])
    requires Value(m.beforeValue + (Render(m.value) + (after + tail)), isDouble) == Ok(v, after + tail)
    ensures var more := Emplace(acc, PiecesMeaning(m.key), v);
      Members(MemberText(m, after + tail), acc, isDouble) ==
        if tail[0] == ',' then Members(tail[1..], more, isDouble)
        else if tail[0] == '}' then Ok(JObject(more), tail[1..])
        else Fail(|tail|)
  {
    hide Value, Render, PiecesOk, Emplace, PiecesText, PiecesMeaning;
    var value := m.beforeValue + (Render(m.value) + (after + tail));
    var colon := ":" + value;
    var t := [m.quote] + PiecesText(m.key) + "\"" + (m.afterKey + colon);
    SkipSpaceStops(m.before, t);
    assert t[1..] == PiecesText(m.key) + "\"" + (m.afterKey + colon);
    StringComplete(m.key, m.afterKey + colon, "");
    assert "" + PiecesMeaning(m.key) == PiecesMeaning(m.key);
    SkipSpaceStops(m.afterKey, colon);
    assert colon[1..] == value;
    SkipSpaceStops(after, tail);
  }

  lemma AfterIsSpace(m: SMember, isDouble: string -> bool)
    requires MemberOk(m, isDouble)
    ensures AllSpace(m.after) && AllSpace(m.beforeValue) && Wf(m.value, isDouble)
  {
  }

  function MemberText(m: SMember, rest: string): (r: string) {
    m.before + ([m.quote] + PiecesText(m.key) + "\"" + (m.afterKey + (":" + (m.beforeValue + (Render(m.value) + rest)))))
  }

  lemma MemberTextOf(members: seq<SMember>, trailing: bool, close: string, rest: string)
    requires members != []
    ensures RenderMembers(members, trailing, close) + rest
         == MemberText(members[0], members[0].after + (MembersTail(members, trailing, close) + rest))
  {
    hide Render, PiecesText, MembersTail;
  }

  lemma LastMemberComplete(members: seq<SMember>, close: string, rest: string, acc: seq<Member>, isDouble: string -> bool)
    requires |members| == 1 && AllSpace(close) && WfMembers(members, isDouble)
    requires var m := members[0];
      Value(m.beforeValue + (Render(m.value) + (m.after + (close + "}" + rest))), isDouble)
        == Ok(Meaning(m.value, isDouble), m.after + (close + "}" + rest))
    ensures Members(RenderMembers(members, false, close) + rest, acc, isDouble)
         == Ok(JObject(MembersMeaning(acc, members, isDouble)), rest)
  {
    var m, end := members[0], "}" + rest;
    MemberTextOf(members, false, close, rest);
    hide Value, Members, Render, RenderMembers, Wf, Meaning, PiecesOk, PiecesMeaning, Emplace;
    assert m.after + (close + "}" + rest) == (m.after + close) + end;
    MemberStep(m, m.after + close, end, Meaning(m.value, isDouble), acc, isDouble);
    assert end[1..] == rest;
    LastMember(acc, members, isDouble);
  }

  lemma MoreMembers(members: seq<SMember>, trailing: bool, close: string, rest: string, acc: seq<Member>,
                    isDouble: string -> bool)
    requires members != [] && (|members| > 1 || trailing) && WfMembers(members, isDouble)
    requires var m := members[0]; var tail := MembersTail(members, trailing, close) + rest;
      Value(m.beforeValue + (Render(m.value) + (m.after + tail)), isDouble) == Ok(Meaning(m.value, isDouble), m.after + tail)
    ensures Members(RenderMembers(members, trailing, close) + rest, acc, isDouble)
         == Members(RenderMembers(members[1..], trailing, close) + rest,
                    Emplace(acc, PiecesMeaning(members[0].key), Meaning(members[0].value, isDouble)), isDouble)
  {
    var m, tail := members[0], MembersTail(members, trailing, close) + rest;
    MemberTextOf(members, trailing, close, rest);
    AfterIsSpace(m, isDouble);
    hide Value, Members, Render, RenderMembers, MemberText, MemberOk, AllSpace, Meaning, PiecesMeaning, Emplace;
    CommaTail(RenderMembers(members[1..], trailing, close), rest);
    MemberStep(m, m.after, tail, Meaning(m.value, isDouble), acc, isDouble);
  }

  lemma {:induction false} MembersComplete(members: seq<SMember>, trailing: bool, close: string, rest: string,
                                           acc: seq<Member>, isDouble: string -> bool)
    requires AllSpace(close) && WfMembers(members, isDouble)
    ensures Members(RenderMembers(members, trailing, close) + rest, acc, isDouble)
         == Ok(JObject(MembersMeaning(acc, members, isDouble)), rest)
    decreases members, 1
  {
    if members == [] {
      ClosingFound(close, '}', rest);
      assert close + "}" + rest == close + (['}'] + rest);
    } else {
      var m, tail := members[0], MembersTail(members, trailing, close) + rest;
      var last := |members| == 1 && !trailing;
      TailShape(m.after, close, last, if last then "" else RenderMembers(members[1..], trailing, close), '}', rest);
      ValueComplete(m.beforeValue, m.value, m.after + tail, isDouble);
      if last {
        LastMemberComplete(members, close, rest, acc, isDouble);
      } else {
        MoreMembers(members, trailing, close, rest, acc, isDouble);
        hide Value, Members, Render, RenderMembers, Wf, Meaning, PiecesOk, PiecesMeaning, Emplace;
        MembersComplete(members[1..], trailing, close, rest,
                        Emplace(acc, PiecesMeaning(m.key), Meaning(m.value, isDouble)), isDouble);
      }
    }
  }

  lemma LastMember(acc: seq<Member>, members: seq<SMember>, isDouble: string -> bool)
    requires |members| == 1
    ensures MembersMeaning(acc, members, isDouble)
         == Emplace(acc, PiecesMeaning(members[0].key), Meaning(members[0].value, isDouble))
  {
    assert members[1..] == [];
  }
}
