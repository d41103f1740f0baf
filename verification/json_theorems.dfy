/** The accepted language exactly, and what follows from it: printing and parsing undo each
    other, white space between tokens does not matter, the first of equal keys wins. */
module JsonTheorems {
  import opened Collections
  import opened Decimal
  import opened Text
  import opened JsonModel
  import opened JsonGrammar

  // ----- Every accepted text is the text of a tree -----

  lemma {:induction false} SpaceSplit(s: string) returns (ws: string)
    ensures AllSpace(ws) && s == ws + SkipSpace(s)
    ensures SkipSpace(s) == "" || !IsSpace(SkipSpace(s)[0])
  {
    if s != "" && IsSpace(s[0]) {
      ws := SpaceSplit(s[1..]);
      assert s == [s[0]] + s[1..];
      ws := [s[0]] + ws;
    } else {
      ws := "";
    }
  }

  /** One step inside a string: a character or an escape. */
  lemma StringPiece(s: string, acc: string) returns (p: Piece, tail: string)
    requires StringBody(s, acc).Ok? && s[0] != '"'
    ensures PieceOk(p) && s == PieceText(p) + tail && |tail| < |s|
    ensures StringBody(s, acc) == StringBody(tail, acc + [PieceMeaning(p)])
  {
    p, tail := Plain(s[0]), s[1..];
    if s[0] == '\\' {
      p, tail := Escaped(s[1]), s[2..];
      EscapesRead(s[1]);
      hide Escapes, Unescape;
      assert s == [s[0]] + [s[1]] + tail && s[1..][1..] == tail;
    } else {
      assert s == [s[0]] + tail;
    }
  }

  lemma {:induction false} StringSound(s: string, acc: string) returns (body: seq<Piece>)
    requires StringBody(s, acc).Ok?
    ensures PiecesOk(body)
    ensures s == PiecesText(body) + "\"" + StringBody(s, acc).rest
    ensures StringBody(s, acc).value == acc + PiecesMeaning(body)
    decreases |s|
  {
    var rest := StringBody(s, acc).rest;
    if s[0] == '"' {
      body := [];
      assert s == "\"" + s[1..];
      assert acc + "" == acc;
    } else {
      var p, tail := StringPiece(s, acc);
      var c := PieceMeaning(p);
      hide StringBody, PieceText, PieceMeaning, PieceOk, PiecesOk, PiecesText, PiecesMeaning;
      var more := StringSound(tail, acc + [c]);
      body := [p] + more;
      PiecesCons(p, more, acc, rest);
    }
  }

  lemma PiecesCons(p: Piece, more: seq<Piece>, acc: string, rest: string)
    ensures PiecesText([p] + more) + "\"" + rest == PieceText(p) + (PiecesText(more) + "\"" + rest)
    ensures acc + [PieceMeaning(p)] + PiecesMeaning(more) == acc + PiecesMeaning([p] + more)
    ensures PieceOk(p) && PiecesOk(more) ==> PiecesOk([p] + more)
  {
    hide PieceText, PieceMeaning, PieceOk;
    assert ([p] + more)[1..] == more;
  }

  lemma {:induction false} ScanOfScanned(s: string)
    ensures ScanLength(s[..ScanLength(s)]) == ScanLength(s)
    decreases |s|
  {
    var n := ScanLength(s);
    var t := s[..n];
    if n > 0 {
      assert t[0] == s[0];
      if (s[0] == 'e' || s[0] == 'E') && |s| > 1 && (s[1] == '+' || s[1] == '-') {
        ScanOfScanned(s[2..]);
        assert t[1] == s[1] && t[2..] == s[2..][..n-2];
      } else {
        ScanOfScanned(s[1..]);
        assert t[1..] == s[1..][..n-1];
        if n > 1 { assert t[1] == s[1]; }
      }
    }
  }

  /** A minus sign or a digit, then digits, points and exponent marks, each of which may have a
      sign behind it. */
  ghost predicate NumberShape(s: string) {
    && s != "" && (s[0] == '-' || IsDigit(s[0]))
    && forall i :: 1 <= i < |s| ==> NumberChar(s, i)
  }

  ghost predicate NumberChar(s: string, i: nat)
    requires i < |s|
  {
    IsDigit(s[i]) || s[i] in {'.', 'e', 'E'} || (s[i] in {'+', '-'} && i > 0 && s[i-1] in {'e', 'E'})
  }

  lemma {:induction false} ScansWhole(s: string)
    ensures ScanLength(s) == |s| <==> forall i :: 0 <= i < |s| ==> NumberChar(s, i)
    decreases |s|
  {
    if s != "" {
      var n := if s[0] in {'e', 'E'} && |s| > 1 && s[1] in {'+', '-'} then 2 else 1;
      var rest := s[n..];
      ScansWhole(rest);
      forall j | 0 <= j < |rest| ensures NumberChar(rest, j) <==> NumberChar(s, n + j) {
        assert rest[j] == s[n+j];
        if j > 0 { assert rest[j-1] == s[n+j-1]; }
      }
      assert NumberChar(s, 0) ==> ScanLength(s) == n + ScanLength(rest) && (n == 2 ==> NumberChar(s, 1));
      forall i | n <= i < |s| && ScanLength(s) == |s| ensures NumberChar(s, i) {
        assert NumberChar(rest, i - n);
      }
    }
  }

  /** A whole number that fits 32 bits. */
  ghost predicate SmallWhole(s: string) {
    || (s != "" && AllDigits(s) && DigitsValue(s) <= INT_MAX)
    || (|s| > 1 && s[0] == '-' && AllDigits(s[1..]) && DigitsValue(s[1..]) <= -INT_MIN)
  }

  ghost function WholeValue(s: string): (r: int)
    requires SmallWhole(s)
  {
    if s[0] == '-' then -(DigitsValue(s[1..]) as int) else DigitsValue(s)
  }

  /** The number texts exactly, and the numbers they stand for. */
  lemma NumberTexts(s: string, isDouble: string -> bool)
    ensures NumberOk(s, isDouble) <==> NumberShape(s) && s != "-" && (SmallWhole(s) || isDouble(s))
    ensures NumberOk(s, isDouble) ==>
      NumberValue(s, isDouble).value == if SmallWhole(s) then JInt(WholeValue(s)) else JDouble(s)
  {
    if NumberStart(Current(s)) {
      NumberLengthIs(s);
      hide NumberLength, ScanLength, DigitsValue;
      if NumberShape(s) { WholeOrDouble(s); }
    }
  }

  lemma NumberLengthIs(s: string)
    requires NumberStart(Current(s))
    ensures NumberLength(s) == |s| <==> NumberShape(s)
  {
    hide ScanLength;
    if s[0] == '-' {
      ScansWhole(s[1..]);
      forall i | 1 <= i < |s| ensures NumberChar(s, i) <==> NumberChar(s[1..], i - 1) {
        assert s[i] == s[1..][i-1] && (i > 1 ==> s[i-1] == s[1..][i-2]);
      }
      forall i | 0 <= i < |s[1..]| ensures NumberChar(s[1..], i) <==> NumberChar(s, i + 1) {}
    } else {
      ScansWhole(s);
    }
  }

  /** Without a point or an exponent mark a number text is an optional sign and digits. */
  lemma WholeOrDouble(s: string)
    requires NumberShape(s)
    ensures !IsDoubleText(s) <==> AllDigits(if s[0] == '-' then s[1..] else s)
  {
    var digits := if s[0] == '-' then s[1..] else s;
    var n := |s| - |digits|;
    assert forall i :: n <= i < |s| ==> s[i] == digits[i-n];
    if !IsDoubleText(s) {
      forall i | 0 <= i < |digits| ensures IsDigit(digits[i]) {
        assert digits[i] == s[i+n];
        if i + n > 0 { assert NumberChar(s, i + n); }
      }
    }
    if AllDigits(digits) {
      forall i | 0 <= i < |s| ensures s[i] !in {'.', 'e', 'E'} {
        if i >= n { assert IsDigit(digits[i-n]); }
      }
    }
  }

  lemma NumberSound(s: string, isDouble: string -> bool)
    requires NumberStart(Current(s)) && NumberAt(s, isDouble).Ok?
    ensures var lexeme := s[..NumberLength(s)];
      && NumberOk(lexeme, isDouble) && s == lexeme + NumberAt(s, isDouble).rest
      && NumberAt(s, isDouble).value == NumberValue(lexeme, isDouble).value
  {
    var n := NumberLength(s);
    var lexeme := s[..n];
    assert n > 0 && lexeme[0] == s[0];
    if s[0] == '-' {
      ScanOfScanned(s[1..]);
      assert lexeme[1..] == s[1..][..n-1];
    } else {
      ScanOfScanned(s);
    }
  }

  lemma PrefixSplit(word: string, t: string)
    requires word <= t
    ensures t == word + t[|word|..]
  {
  }

  lemma LiteralSound(t: string, isDouble: string -> bool) returns (src: Src)
    requires t != "" && t[0] in {'t', 'f', 'n'} && Value(t, isDouble).Ok?
    ensures Wf(src, isDouble) && t == Render(src) + Value(t, isDouble).rest
    ensures Meaning(src, isDouble) == Value(t, isDouble).value
  {
    hide Elements, Members, StringBody, NumberAt;
    if t[0] == 'n' {
      src := SNull;
      PrefixSplit("null", t);
    } else if "true" <= t {
      src := SBool(true);
      PrefixSplit("true", t);
    } else {
      src := SBool(false);
      PrefixSplit("false", t);
    }
  }

  lemma ScalarSound(t: string, isDouble: string -> bool) returns (src: Src)
    requires t != "" && !IsSpace(t[0]) && t[0] != '[' && t[0] != '{' && Value(t, isDouble).Ok?
    ensures Wf(src, isDouble) && t == Render(src) + Value(t, isDouble).rest
    ensures Meaning(src, isDouble) == Value(t, isDouble).value
  {
    hide Elements, Members, StringBody, NumberAt, PiecesText, PiecesMeaning, PiecesOk, NumberOk, NumberValue;
    if t[0] == '"' {
      var body := StringSound(t[1..], "");
      src := SString(body);
      assert t == "\"" + t[1..];
      assert "" + PiecesMeaning(body) == PiecesMeaning(body);
      var rest := StringBody(t[1..], "").rest;
      assert "\"" + (PiecesText(body) + "\"" + rest) == Render(src) + rest;
    } else if t[0] in {'t', 'f', 'n'} {
      src := LiteralSound(t, isDouble);
    } else {
      NumberSound(t, isDouble);
      src := SNumber(t[..NumberLength(t)]);
      NumberOkParses(t[..NumberLength(t)], isDouble);
    }
  }

  lemma NumberOkParses(lexeme: string, isDouble: string -> bool)
    requires NumberOk(lexeme, isDouble)
    ensures NumberValue(lexeme, isDouble).Ok?
  {
  }

  /** Leading white space is not part of a value. */
  lemma ValueSkips(s: string, isDouble: string -> bool)
    ensures Value(s, isDouble) == Value(SkipSpace(s), isDouble)
    ensures Value(s, isDouble).Ok? ==> SkipSpace(s) != ""
  {
    hide Elements, Members, StringBody, NumberAt;
    var ws := SpaceSplit(s);
    SkipIdle(SkipSpace(s));
  }

  lemma {:induction false} ValueSound(s: string, isDouble: string -> bool) returns (ws: string, src: Src)
    requires Value(s, isDouble).Ok?
    ensures AllSpace(ws) && Wf(src, isDouble)
    ensures s == ws + (Render(src) + Value(s, isDouble).rest)
    ensures Meaning(src, isDouble) == Value(s, isDouble).value
    decreases |s|, 0
  {
    ws := SpaceSplit(s);
    var t := SkipSpace(s);
    var rest := Value(s, isDouble).rest;
    ValueSkips(s, isDouble);
    ValueBranch(ws, t, isDouble);
    hide AllSpace, Value, Elements, Members, StringBody, SkipSpace, RenderItems, RenderMembers, WfItems, WfMembers,
         ItemsMeaning, MembersMeaning;
    if t[0] == '[' {
      var items, trailing, close := ItemsSound(t[1..], [], isDouble);
      src := SArray(items, trailing, close);
      assert [] + ItemsMeaning(items, isDouble) == ItemsMeaning(items, isDouble);
      OpenBracket(t, '[', RenderItems(items, trailing, close), rest);
    } else if t[0] == '{' {
      var members, trailing, close := MembersSound(t[1..], [], isDouble);
      src := SObject(members, trailing, close);
      OpenBracket(t, '{', RenderMembers(members, trailing, close), rest);
    } else {
      src := ScalarSound(t, isDouble);
    }
  }

  lemma OpenBracket(t: string, c: char, body: string, rest: string)
    requires t != "" && t[0] == c && t[1..] == body + rest
    ensures t == [c] + body + rest
  {
    assert t == [t[0]] + t[1..];
  }

  lemma SkipIdle(t: string)
    requires t == "" || !IsSpace(t[0])
    ensures SkipSpace(t) == t
  {
  }

  /** What follows the first element of an accepted array. */
  lemma ElementsStep(s: string, acc: seq<JsonValue>, isDouble: string -> bool)
    requires Elements(s, acc, isDouble).Ok? && Current(SkipSpace(s)) != ']'
    ensures var v := Value(SkipSpace(s), isDouble);
      && v.Ok?
      && var tail := SkipSpace(v.rest);
        && tail != "" && |tail[1..]| < |s| && tail == [tail[0]] + tail[1..]
        && ((tail[0] == ',' && Elements(s, acc, isDouble) == Elements(tail[1..], acc + [v.value], isDouble))
            || (tail[0] == ']' && Elements(s, acc, isDouble) == Ok(JArray(acc + [v.value]), tail[1..])))
  {
    hide Value, SkipSpace;
  }

  lemma NoElements(s: string, acc: seq<JsonValue>, isDouble: string -> bool)
    requires Current(SkipSpace(s)) == ']'
    ensures Elements(s, acc, isDouble) == Ok(JArray(acc + []), SkipSpace(s)[1..]) && SkipSpace(s) == "]" + SkipSpace(s)[1..]
  {
    hide SkipSpace;
    assert acc + [] == acc;
  }

  lemma OneItem(item: SItem, more: seq<SItem>, acc: seq<JsonValue>, isDouble: string -> bool)
    ensures acc + ItemsMeaning([item] + more, isDouble) == acc + [Meaning(item.value, isDouble)] + ItemsMeaning(more, isDouble)
    ensures more == [] ==> acc + ItemsMeaning([item], isDouble) == acc + [Meaning(item.value, isDouble)]
  {
    hide Meaning;
    assert ([item] + more)[1..] == more;
    assert [item][1..] == [];
  }

  lemma {:induction false} ItemsSound(s: string, acc: seq<JsonValue>, isDouble: string -> bool)
    returns (items: seq<SItem>, trailing: bool, close: string)
    requires Elements(s, acc, isDouble).Ok?
    ensures AllSpace(close) && WfItems(items, isDouble)
    ensures s == RenderItems(items, trailing, close) + Elements(s, acc, isDouble).rest
    ensures Elements(s, acc, isDouble).value == JArray(acc + ItemsMeaning(items, isDouble))
    decreases |s|, 2
  {
    var rest := Elements(s, acc, isDouble).rest;
    var ws := SpaceSplit(s);
    var t := SkipSpace(s);
    hide Value, Elements, AllSpace, SkipSpace, Render, Wf, Meaning;
    if Current(t) == ']' {
      NoElements(s, acc, isDouble);
      items, trailing, close := [], false, ws;
      assert ItemsMeaning(items, isDouble) == [];
    } else {
      ElementsStep(s, acc, isDouble);
      var ws2, src := ValueSound(t, isDouble);
      var v := Value(t, isDouble);
      var ws3 := SpaceSplit(v.rest);
      var tail := SkipSpace(v.rest);
      var item := SItem(ws + ws2, src, ws3);
      SpacesJoin(ws, ws2);
      if tail[0] == ',' {
        var more, moreTrailing;
        more, moreTrailing, close := ItemsSound(tail[1..], acc + [v.value], isDouble);
        items := [item] + more;
        trailing := more == [] || moreTrailing;
        ItemsAssemble(s, item, ws, ws2, more, moreTrailing, close, tail, rest);
        OneItem(item, more, acc, isDouble);
        hide RenderItems, ItemsMeaning;
        assert items[1..] == more;
      } else {
        items, trailing, close := [item], false, "";
        EmptyIsSpace();
        LastAssemble(s, item, ws, ws2, tail, rest);
        OneItem(item, [], acc, isDouble);
        hide RenderItems, ItemsMeaning;
        assert items[1..] == [];
      }
    }
  }

  lemma SpacesJoin(a: string, b: string)
    requires AllSpace(a) && AllSpace(b)
    ensures AllSpace(a + b)
  {
  }

  lemma EmptyIsSpace()
    ensures AllSpace("")
  {
  }

  lemma ItemsAssemble(s: string, item: SItem, ws: string, ws2: string, more: seq<SItem>, moreTrailing: bool, close: string,
                      tail: string, rest: string)
    requires item.before == ws + ws2
    requires s == ws + (ws2 + (Render(item.value) + (item.after + tail)))
    requires tail == "," + (RenderItems(more, moreTrailing, close) + rest)
    ensures s == RenderItems([item] + more, more == [] || moreTrailing, close) + rest
  {
    var items, trailing := [item] + more, more == [] || moreTrailing;
    ItemTextOf(items, trailing, close, rest);
    assert items[1..] == more;
    assert RenderItems(more, trailing, close) == RenderItems(more, moreTrailing, close);
    assert ItemsTail(items, trailing, close) == "," + RenderItems(more, moreTrailing, close);
    assert ItemsTail(items, trailing, close) + rest == tail;
  }

  lemma LastAssemble(s: string, item: SItem, ws: string, ws2: string, tail: string, rest: string)
    requires item.before == ws + ws2
    requires s == ws + (ws2 + (Render(item.value) + (item.after + tail)))
    requires tail == "]" + rest
    ensures s == RenderItems([item], false, "") + rest
  {
    ItemTextOf([item], false, "", rest);
    assert ItemsTail([item], false, "") == "" + "]";
    assert "" + "]" + rest == tail;
  }

  lemma KeySound(t: string) returns (body: seq<Piece>, ws: string)
    requires KeyAt(t).Ok?
    ensures t != "" && PiecesOk(body) && AllSpace(ws) && KeyAt(t).value == PiecesMeaning(body)
    ensures t == [t[0]] + (PiecesText(body) + "\"" + (ws + (":" + KeyAt(t).rest)))
  {
    body := StringSound(Next(t), "");
    var key := StringAt(t);
    hide StringBody, PiecesText, PiecesMeaning, PiecesOk;
    ws := SpaceSplit(key.rest);
    var colon := SkipSpace(key.rest);
    assert "" + PiecesMeaning(body) == PiecesMeaning(body);
    assert colon == ":" + colon[1..];
    assert t == [t[0]] + Next(t);
  }

  /** The first of the members to come, up to the token after it. */
  lemma {:induction false} MemberSound(s: string, acc: seq<Member>, isDouble: string -> bool)
    returns (m: SMember, tail: string)
    requires Members(s, acc, isDouble).Ok? && Current(SkipSpace(s)) != '}'
    ensures MemberOk(m, isDouble) && s == MemberText(m, m.after + tail) && |tail| < |s|
    ensures Current(tail) == ',' || Current(tail) == '}'
    ensures var more := Emplace(acc, PiecesMeaning(m.key), Meaning(m.value, isDouble));
      Members(s, acc, isDouble) ==
        if Current(tail) == ',' then Members(tail[1..], more, isDouble) else Ok(JObject(more), tail[1..])
    decreases |s|, 1
  {
    hide KeyAt, Value, PiecesOk, PiecesText, PiecesMeaning, Emplace, Meaning, Wf, Render, AllSpace;
    var ws := SpaceSplit(s);
    var t := SkipSpace(s);
    var body, ws1 := KeySound(t);
    var ws2, src := ValueSound(KeyAt(t).rest, isDouble);
    var v := Value(KeyAt(t).rest, isDouble);
    var ws3 := SpaceSplit(v.rest);
    tail := SkipSpace(v.rest);
    hide SkipSpace;
    m := SMember(ws, t[0], body, ws1, ws2, src, ws3);
    assert MemberOk(m, isDouble);
    MemberAssemble(s, m, t, v.rest, tail);
  }

  /** No member is to come. */
  lemma {:induction false} ClosingSound(s: string, acc: seq<Member>, isDouble: string -> bool) returns (ws: string)
    requires Current(SkipSpace(s)) == '}'
    ensures AllSpace(ws) && Members(s, acc, isDouble).Ok?
    ensures s == RenderMembers([], false, ws) + Members(s, acc, isDouble).rest
    ensures Members(s, acc, isDouble).value == JObject(acc)
  {
    ws := SpaceSplit(s);
    var t := SkipSpace(s);
    assert t == "}" + t[1..];
  }

  lemma {:induction false} MembersSound(s: string, acc: seq<Member>, isDouble: string -> bool)
    returns (members: seq<SMember>, trailing: bool, close: string)
    requires Members(s, acc, isDouble).Ok?
    ensures AllSpace(close) && WfMembers(members, isDouble)
    ensures s == RenderMembers(members, trailing, close) + Members(s, acc, isDouble).rest
    ensures Members(s, acc, isDouble).value == JObject(MembersMeaning(acc, members, isDouble))
    decreases |s|, 2
  {
    hide *;
    if Current(SkipSpace(s)) == '}' {
      NoMembers(acc, isDouble);
      members, trailing := [], false;
      close := ClosingSound(s, acc, isDouble);
    } else {
      var m, tail := MemberSound(s, acc, isDouble);
      var here, rest := Emplace(acc, PiecesMeaning(m.key), Meaning(m.value, isDouble)), Members(s, acc, isDouble).rest;
      FirstChar(tail);
      NoMembers(here, isDouble);
      if Current(tail) == ',' {
        var more, moreTrailing;
        more, moreTrailing, close := MembersSound(tail[1..], here, isDouble);
        members, trailing := [m] + more, more == [] || moreTrailing;
        ConsMembers(m, more, acc, isDouble);
        MembersAssemble(s, m, more, moreTrailing, close, tail, rest);
      } else {
        members, trailing, close := [m] + [], false, "";
        EmptyIsSpace();
        ConsMembers(m, [], acc, isDouble);
        assert [m] + [] == [m];
        LastMemberAssemble(s, m, tail, rest);
      }
    }
  }

  lemma FirstChar(s: string)
    ensures Current(s) == ',' || Current(s) == '}' ==> s != "" && s == [Current(s)] + s[1..]
  {
  }

  lemma NoMembers(acc: seq<Member>, isDouble: string -> bool)
    ensures WfMembers([], isDouble) && MembersMeaning(acc, [], isDouble) == acc
  {
  }

  lemma {:induction false} ConsMembers(m: SMember, more: seq<SMember>, acc: seq<Member>, isDouble: string -> bool)
    requires MemberOk(m, isDouble) && WfMembers(more, isDouble)
    ensures WfMembers([m] + more, isDouble)
    ensures MembersMeaning(acc, [m] + more, isDouble) ==
      MembersMeaning(Emplace(acc, PiecesMeaning(m.key), Meaning(m.value, isDouble)), more, isDouble)
  {
    assert ([m] + more)[1..] == more;
  }

  lemma MemberAssemble(s: string, m: SMember, t: string, afterValue: string, tail: string)
    requires s == m.before + t
    requires t == [m.quote] + (PiecesText(m.key) + "\"" + (m.afterKey + (":" + (m.beforeValue + (Render(m.value) + afterValue)))))
    requires afterValue == m.after + tail
    ensures s == MemberText(m, m.after + tail)
  {
    hide Render, PiecesText;
    var k := m.afterKey + (":" + (m.beforeValue + (Render(m.value) + afterValue)));
    assert [m.quote] + (PiecesText(m.key) + "\"" + k) == [m.quote] + PiecesText(m.key) + "\"" + k;
  }

  lemma MembersAssemble(s: string, m: SMember, more: seq<SMember>, moreTrailing: bool, close: string, tail: string, rest: string)
    requires s == MemberText(m, m.after + tail)
    requires tail == "," + (RenderMembers(more, moreTrailing, close) + rest)
    ensures s == RenderMembers([m] + more, more == [] || moreTrailing, close) + rest
  {
    var members, trailing := [m] + more, more == [] || moreTrailing;
    MemberTextOf(members, trailing, close, rest);
    hide MemberText;
    assert members[1..] == more;
    assert RenderMembers(more, trailing, close) == RenderMembers(more, moreTrailing, close);
    assert MembersTail(members, trailing, close) == "," + RenderMembers(more, moreTrailing, close);
    assert MembersTail(members, trailing, close) + rest == tail;
  }

  lemma LastMemberAssemble(s: string, m: SMember, tail: string, rest: string)
    requires s == MemberText(m, m.after + tail) && tail == "}" + rest
    ensures s == RenderMembers([m], false, "") + rest
  {
    MemberTextOf([m], false, "", rest);
    hide MemberText;
    assert MembersTail([m], false, "") == "" + "}";
    assert "" + "}" + rest == tail;
  }
}
