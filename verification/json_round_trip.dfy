/** Consequences of the exact grammar: the accepted language, the round trip through the
    printer, indifference to white space, and the fate of repeated keys. */
module JsonRoundTrip {
  import opened Collections
  import opened Text
  import opened Decimal
  import opened Ordering
  import opened JsonModel
  import opened JsonGrammar
  import opened JsonTheorems

  /** `s` is white space and then the text of a tree that means `v`. */
  ghost predicate Denotes(s: string, ws: string, src: Src, v: JsonValue, isDouble: string -> bool) {
    AllSpace(ws) && Wf(src, isDouble) && s == ws + Render(src) && Meaning(src, isDouble) == v
  }

  /** The parser accepts exactly the texts of trees, and gives their meaning. */
  lemma ParsesExactly(s: string, v: JsonValue, isDouble: string -> bool)
    ensures Parse(s, isDouble) == Ok(v, "") <==> exists ws, src :: Denotes(s, ws, src, v, isDouble)
  {
    hide Value, Render, Wf, Meaning;
    if Parse(s, isDouble) == Ok(v, "") {
      var ws, src := ValueSound(s, isDouble);
      assert Render(src) + "" == Render(src);
      assert Denotes(s, ws, src, v, isDouble);
    }
    if ws, src :| Denotes(s, ws, src, v, isDouble) {
      ValueComplete(ws, src, "", isDouble);
      assert Render(src) + "" == Render(src);
    }
  }

  /** White space after the top-level value is refused, unlike anywhere else. */
  lemma TrailingSpaceRefused(ws: string, src: Src, more: string, isDouble: string -> bool)
    requires AllSpace(ws) && Wf(src, isDouble) && AllSpace(more) && more != ""
    ensures Parse(ws + Render(src) + more, isDouble) == Fail(|more|)
  {
    hide Value, Render, Wf;
    ValueComplete(ws, src, more, isDouble);
    assert ws + (Render(src) + more) == ws + Render(src) + more;
  }

  // ----- White space -----

  /** The tree without its white space and optional commas, with proper quotes. */
  function Strip(src: Src): (r: Src)
    decreases src, 0
  {
    match src
    case SArray(items, _, _) => SArray(StripItems(items), false, "")
    case SObject(members, _, _) => SObject(StripMembers(members), false, "")
    case _ => src
  }

  function StripItems(items: seq<SItem>): (r: seq<SItem>)
    decreases items, 1
  {
    if items == [] then [] else [SItem("", Strip(items[0].value), "")] + StripItems(items[1..])
  }

  function StripMembers(members: seq<SMember>): (r: seq<SMember>)
    decreases members, 1
  {
    if members == [] then []
    else [SMember("", '"', members[0].key, "", "", Strip(members[0].value), "")] + StripMembers(members[1..])
  }

  lemma {:induction false} StripKeeps(src: Src, isDouble: string -> bool)
    requires Wf(src, isDouble)
    ensures Wf(Strip(src), isDouble) && Meaning(Strip(src), isDouble) == Meaning(src, isDouble)
    decreases src, 0
  {
    match src {
      case SArray(items, _, _) => StripItemsKeeps(items, isDouble);
      case SObject(members, _, _) => StripMembersKeeps([], members, isDouble);
      case _ =>
    }
  }

  lemma {:induction false} StripItemsKeeps(items: seq<SItem>, isDouble: string -> bool)
    requires WfItems(items, isDouble)
    ensures WfItems(StripItems(items), isDouble)
    ensures ItemsMeaning(StripItems(items), isDouble) == ItemsMeaning(items, isDouble)
    decreases items, 1
  {
    if items != [] {
      StripKeeps(items[0].value, isDouble);
      StripItemsKeeps(items[1..], isDouble);
      assert StripItems(items)[1..] == StripItems(items[1..]);
    }
  }

  lemma {:induction false} StripMembersKeeps(acc: seq<Member>, members: seq<SMember>, isDouble: string -> bool)
    requires WfMembers(members, isDouble)
    ensures WfMembers(StripMembers(members), isDouble)
    ensures MembersMeaning(acc, StripMembers(members), isDouble) == MembersMeaning(acc, members, isDouble)
    decreases members, 1
  {
    if members != [] {
      var m := members[0];
      StripKeeps(m.value, isDouble);
      StripMembersKeeps(Emplace(acc, PiecesMeaning(m.key), Meaning(m.value, isDouble)), members[1..], isDouble);
      assert StripMembers(members)[1..] == StripMembers(members[1..]);
      assert MemberOk(StripMembers(members)[0], isDouble);
    }
  }

  /** Two texts that differ only in white space between tokens parse to the same value. */
  lemma WhiteSpaceIrrelevant(ws: string, src: Src, ws': string, src': Src, isDouble: string -> bool)
    requires AllSpace(ws) && AllSpace(ws') && Wf(src, isDouble) && Wf(src', isDouble)
    requires Strip(src) == Strip(src')
    ensures Parse(ws + Render(src), isDouble).Ok?
    ensures Parse(ws + Render(src), isDouble) == Parse(ws' + Render(src'), isDouble)
  {
    StripKeeps(src, isDouble);
    StripKeeps(src', isDouble);
    hide Value, Render, Wf, Strip, Meaning;
    ValueComplete(ws, src, "", isDouble);
    ValueComplete(ws', src', "", isDouble);
    assert Render(src) + "" == Render(src) && Render(src') + "" == Render(src');
  }

  // ----- Repeated keys -----

  datatype Found = NotFound | FoundValue(v: JsonValue)

  function Lookup(ms: seq<Member>, k: string): (r: Found) {
    if ms == [] then NotFound else if ms[0].0 == k then FoundValue(ms[0].1) else Lookup(ms[1..], k)
  }

  /** The value of the first member spelled with that key. */
  function FirstValue(members: seq<SMember>, k: string, isDouble: string -> bool): (r: Found) {
    if members == [] then NotFound
    else if PiecesMeaning(members[0].key) == k then FoundValue(Meaning(members[0].value, isDouble))
    else FirstValue(members[1..], k, isDouble)
  }

  ghost predicate KeysAscend(ms: seq<Member>) {
    forall i, j :: 0 <= i < j < |ms| ==> Less(ms[i].0, ms[j].0)
  }

  lemma {:induction false} EmplaceLooksUp(ms: seq<Member>, k: string, v: JsonValue, k': string)
    requires KeysAscend(ms)
    ensures Lookup(Emplace(ms, k, v), k') ==
      if k' == k && Lookup(ms, k) == NotFound then FoundValue(v) else Lookup(ms, k')
  {
    if ms != [] && ms[0].0 != k {
      if Less(k, ms[0].0) {
        AbsentBelow(ms, k);
        assert ([(k, v)] + ms)[1..] == ms;
      } else {
        assert ([ms[0]] + Emplace(ms[1..], k, v))[1..] == Emplace(ms[1..], k, v);
        EmplaceLooksUp(ms[1..], k, v, k');
      }
    }
  }

  lemma {:induction false} AbsentBelow(ms: seq<Member>, k: string)
    requires KeysAscend(ms) && ms != [] && Less(k, ms[0].0)
    ensures Lookup(ms, k) == NotFound
  {
    LessIrreflexive(k);
    if |ms| > 1 {
      assert Less(ms[0].0, ms[1].0);
      LessTransitive(k, ms[0].0, ms[1].0);
      AbsentBelow(ms[1..], k);
    }
  }

  /** Emplacing keeps the keys strictly ascending and adds no other key. */
  lemma {:induction false} EmplaceAscends(ms: seq<Member>, k: string, v: JsonValue)
    requires KeysAscend(ms)
    ensures KeysAscend(Emplace(ms, k, v))
    ensures forall m :: m in Emplace(ms, k, v) ==> m in ms || m.0 == k
  {
    if ms != [] && ms[0].0 != k {
      LessTotal(k, ms[0].0);
      if Less(k, ms[0].0) {
        forall j | 0 <= j < |ms| ensures Less(k, ms[j].0) {
          if j > 0 { LessTransitive(k, ms[0].0, ms[j].0); }
        }
      } else {
        var tail := Emplace(ms[1..], k, v);
        EmplaceAscends(ms[1..], k, v);
        forall j | 0 <= j < |tail| ensures Less(ms[0].0, tail[j].0) {
          assert tail[j] in tail;
          if tail[j] in ms[1..] {
            var i :| 0 <= i < |ms[1..]| && ms[1..][i] == tail[j];
            assert ms[i+1] == tail[j];
          }
        }
      }
    }
  }

  /** An object lists each key once, in order, with the value its first occurrence had. */
  lemma {:induction false} FirstKeyWins(acc: seq<Member>, members: seq<SMember>, k: string, isDouble: string -> bool)
    requires KeysAscend(acc)
    ensures KeysAscend(MembersMeaning(acc, members, isDouble))
    ensures Lookup(MembersMeaning(acc, members, isDouble), k) ==
      if Lookup(acc, k) != NotFound then Lookup(acc, k) else FirstValue(members, k, isDouble)
    decreases |members|
  {
    if members != [] {
      var key, v := PiecesMeaning(members[0].key), Meaning(members[0].value, isDouble);
      EmplaceAscends(acc, key, v);
      EmplaceLooksUp(acc, key, v, k);
      FirstKeyWins(Emplace(acc, key, v), members[1..], k, isDouble);
    }
  }

  // ----- Printing -----

  /** Values a program can hold and the printer can spell exactly: 32-bit integers, objects
      in key order, no doubles. */
  ghost predicate Proper(v: JsonValue)
    decreases v, 0
  {
    match v
    case JInt(i) => INT_MIN <= i <= INT_MAX
    case JDouble(_) => false
    case JArray(items) => forall i :: 0 <= i < |items| ==> Proper(items[i])
    case JObject(members) => KeysAscend(members) && forall i :: 0 <= i < |members| ==> Proper(members[i].1)
    case _ => true
  }

  function CanonPiece(c: char): (p: Piece) {
    if Escape(c) == [c] then Plain(c) else Escaped(Escape(c)[|Escape(c)|-1])
  }

  function CanonPieces(s: string): (r: seq<Piece>) {
    if s == "" then [] else [CanonPiece(s[0])] + CanonPieces(s[1..])
  }

  /** The tree whose text the printer writes. */
  function Canon(v: JsonValue): (src: Src)
    decreases v, 0
  {
    match v
    case JNull => SNull
    case JBool(b) => SBool(b)
    case JInt(i) => SNumber(PrintInt(i))
    case JDouble(d) => SNumber(d)
    case JString(s) => SString(CanonPieces(s))
    case JArray(items) => SArray(CanonItems(items), false, "")
    case JObject(members) => SObject(CanonMembers(members), false, "")
  }

  function CanonItems(items: seq<JsonValue>): (r: seq<SItem>)
    ensures |r| == |items|
    decreases items, 1
  {
    if items == [] then [] else [SItem("", Canon(items[0]), "")] + CanonItems(items[1..])
  }

  function CanonMember(m: Member): (r: SMember)
    decreases m, 1
  {
    SMember("", '"', CanonPieces(m.0), "", "", Canon(m.1), "")
  }

  function CanonMembers(members: seq<Member>): (r: seq<SMember>)
    ensures |r| == |members|
    decreases members, 2
  {
    if members == [] then [] else [CanonMember(members[0])] + CanonMembers(members[1..])
  }

  lemma {:induction false} CanonString(s: string)
    ensures PiecesOk(CanonPieces(s)) && PiecesMeaning(CanonPieces(s)) == s && PiecesText(CanonPieces(s)) == EscapeAll(s)
  {
    if s != "" {
      CanonString(s[1..]);
      var p, more := CanonPiece(s[0]), CanonPieces(s[1..]);
      CanonChar(s[0]);
      hide CanonPiece, Escape, PieceText, PieceMeaning, PieceOk;
      assert ([p] + more)[1..] == more;
      assert s == [s[0]] + s[1..];
    }
  }

  /** The escape table of the printer is inverted by the parser's. */
  lemma CanonChar(c: char)
    ensures PieceOk(CanonPiece(c)) && PieceMeaning(CanonPiece(c)) == c && PieceText(CanonPiece(c)) == Escape(c)
  {
  }

  lemma {:induction false} ScanDigits(s: string)
    requires AllDigits(s)
    ensures ScanLength(s) == |s|
  {
    if s != "" { ScanDigits(s[1..]); }
  }

  lemma PrintIntReads(i: int, isDouble: string -> bool)
    requires INT_MIN <= i <= INT_MAX
    ensures NumberOk(PrintInt(i), isDouble) && NumberValue(PrintInt(i), isDouble).value == JInt(i)
  {
    var n := if i < 0 then -i else i;
    PrintNatReads(n);
    ScanDigits(PrintNat(n));
    hide PrintNat, ScanLength, DigitsValue;
    var s := PrintInt(i);
    assert i < 0 ==> s[1..] == PrintNat(n);
    assert Unsigned(s) == PrintNat(n);
    forall k | 0 <= k < |s| ensures s[k] !in {'.', 'e', 'E'} {
      if i < 0 && k > 0 { assert s[k] == s[1..][k-1]; }
    }
  }

  lemma {:induction false} CanonPrints(v: JsonValue, printDouble: string -> string, isDouble: string -> bool)
    requires Proper(v)
    ensures Render(Canon(v)) == Print(v, printDouble)
    ensures Wf(Canon(v), isDouble) && Meaning(Canon(v), isDouble) == v
    decreases v, 0
  {
    hide EscapeAll, PrintInt, PrintItems, PrintMembers, RenderItems, RenderMembers, CanonItems, CanonMembers, CanonPieces,
         PiecesText, PiecesOk, PiecesMeaning, WfItems, WfMembers, ItemsMeaning, MembersMeaning;
    EmptyIsSpace();
    match v {
      case JInt(i) => PrintIntReads(i, isDouble);
      case JString(s) => CanonString(s);
      case JArray(items) =>
        CanonItemsPrint(items, printDouble, isDouble);
        ConcatAssociative("[", PrintItems(items, printDouble), "]");
      case JObject(members) =>
        assert [] + members == members;
        CanonMembersPrint([], members, printDouble, isDouble);
        ConcatAssociative("{", PrintMembers(members, printDouble), "}");
      case _ =>
    }
  }

  lemma {:induction false} CanonItemsPrint(items: seq<JsonValue>, printDouble: string -> string, isDouble: string -> bool)
    requires forall i :: 0 <= i < |items| ==> Proper(items[i])
    ensures RenderItems(CanonItems(items), false, "") == PrintItems(items, printDouble) + "]"
    ensures WfItems(CanonItems(items), isDouble) && ItemsMeaning(CanonItems(items), isDouble) == items
    decreases items, 1
  {
    if items != [] {
      CanonPrints(items[0], printDouble, isDouble);
      CanonItemsPrint(items[1..], printDouble, isDouble);
      ItemPrints(items, printDouble);
      assert CanonItems(items)[1..] == CanonItems(items[1..]);
      assert items == [items[0]] + items[1..];
    }
  }

  lemma ItemPrints(items: seq<JsonValue>, printDouble: string -> string)
    requires items != [] && Render(Canon(items[0])) == Print(items[0], printDouble)
    requires RenderItems(CanonItems(items[1..]), false, "") == PrintItems(items[1..], printDouble) + "]"
    ensures RenderItems(CanonItems(items), false, "") == PrintItems(items, printDouble) + "]"
  {
    hide Render, Canon, Print;
    var all := CanonItems(items);
    var p := Print(items[0], printDouble);
    assert all[0] == SItem("", Canon(items[0]), "") && all[1..] == CanonItems(items[1..]);
    assert RenderItems(all, false, "") == "" + p + ("" + ItemsTail(all, false, ""));
    if |items| == 1 {
      assert "" + p + ("" + ("" + "]")) == p + "]";
    } else {
      var q := PrintItems(items[1..], printDouble);
      assert "" + p + ("" + ("," + (q + "]"))) == p + "," + q + "]";
    }
  }

  lemma {:induction false} EmplaceLast(ms: seq<Member>, k: string, v: JsonValue)
    requires forall i :: 0 <= i < |ms| ==> Less(ms[i].0, k)
    ensures Emplace(ms, k, v) == ms + [(k, v)]
  {
    if ms != [] {
      if Less(k, ms[0].0) { LessTransitive(k, ms[0].0, k); }
      LessIrreflexive(k);
      EmplaceLast(ms[1..], k, v);
      assert ms + [(k, v)] == [ms[0]] + (ms[1..] + [(k, v)]);
    }
  }

  lemma {:induction false} CanonMembersPrint(acc: seq<Member>, members: seq<Member>, printDouble: string -> string,
                                             isDouble: string -> bool)
    requires KeysAscend(acc + members) && forall i :: 0 <= i < |members| ==> Proper(members[i].1)
    ensures RenderMembers(CanonMembers(members), false, "") == PrintMembers(members, printDouble) + "}"
    ensures WfMembers(CanonMembers(members), isDouble)
    ensures MembersMeaning(acc, CanonMembers(members), isDouble) == acc + members
    decreases members, 2
  {
    if members == [] {
      assert acc + [] == acc;
    } else {
      var m := members[0];
      assert (acc + members)[|acc|] == m;
      forall i | 0 <= i < |acc| ensures Less(acc[i].0, m.0) { assert (acc + members)[i] == acc[i]; }
      EmplaceLast(acc, m.0, m.1);
      assert m == (m.0, m.1);
      CanonMemberPrints(m, printDouble, isDouble);
      assert acc + [m] + members[1..] == acc + members;
      CanonMembersPrint(acc + [m], members[1..], printDouble, isDouble);
      MemberPrints(members, printDouble);
      assert CanonMembers(members)[1..] == CanonMembers(members[1..]);
    }
  }

  lemma {:induction false} CanonMemberPrints(m: Member, printDouble: string -> string, isDouble: string -> bool)
    requires Proper(m.1)
    ensures MemberOk(CanonMember(m), isDouble) && PiecesMeaning(CanonMember(m).key) == m.0
    ensures Meaning(CanonMember(m).value, isDouble) == m.1
    ensures Render(Canon(m.1)) == Print(m.1, printDouble)
    decreases m, 1
  {
    CanonPrints(m.1, printDouble, isDouble);
    CanonString(m.0);
  }

  /** The first member's text, whatever follows it. */
  lemma {:induction false} OneMemberPrints(m: Member, tail: string, printDouble: string -> string)
    requires Render(Canon(m.1)) == Print(m.1, printDouble)
    ensures MemberText(CanonMember(m), "" + tail) == PrintMember(m, printDouble) + tail
  {
    CanonString(m.0);
    hide Render, Canon, Print, PiecesText, EscapeAll, CanonPieces;
    var e, p := EscapeAll(m.0), Print(m.1, printDouble);
    MemberGrouped(e, p, tail);
    assert ['"'] == "\"";
  }

  lemma MemberGrouped(e: string, p: string, tail: string)
    ensures "" + (['"'] + e + "\"" + ("" + ":" + ("" + p + ("" + tail)))) == "\"" + e + "\"" + ":" + p + tail
  {
  }

  lemma CommaGrouped(m: string, q: string)
    ensures m + ("," + (q + "}")) == m + ("," + q) + "}" && m + "" + "}" == m + "}"
  {
  }

  lemma {:induction false} PrintCons(m: Member, more: seq<Member>, printDouble: string -> string)
    ensures PrintMembers([m] + more, printDouble) ==
      PrintMember(m, printDouble) + (if more == [] then "" else "," + PrintMembers(more, printDouble))
  {
    hide PrintMember;
    assert ([m] + more)[1..] == more;
    CommaJoin(PrintMember(m, printDouble), PrintMembers(more, printDouble));
  }

  lemma CommaJoin(m: string, q: string)
    ensures m + "," + q == m + ("," + q) && m + "" == m
  {
  }

  lemma {:induction false} CanonCons(m: Member, more: seq<Member>)
    ensures CanonMembers([m] + more) == [CanonMember(m)] + CanonMembers(more)
    ensures MembersTail([CanonMember(m)] + CanonMembers(more), false, "") ==
      if more == [] then "}" else "," + RenderMembers(CanonMembers(more), false, "")
  {
    hide CanonMember, RenderMembers;
    assert ([m] + more)[1..] == more;
    assert ([CanonMember(m)] + CanonMembers(more))[1..] == CanonMembers(more);
  }

  lemma {:induction false} RenderFirst(m: SMember, more: seq<SMember>)
    ensures RenderMembers([m] + more, false, "") == MemberText(m, m.after + MembersTail([m] + more, false, ""))
  {
    MemberTextOf([m] + more, false, "", "");
    hide *;
    assert RenderMembers([m] + more, false, "") + "" == RenderMembers([m] + more, false, "");
    assert MembersTail([m] + more, false, "") + "" == MembersTail([m] + more, false, "");
  }

  lemma {:induction false} MemberPrints(members: seq<Member>, printDouble: string -> string)
    requires members != [] && Render(Canon(members[0].1)) == Print(members[0].1, printDouble)
    requires RenderMembers(CanonMembers(members[1..]), false, "") == PrintMembers(members[1..], printDouble) + "}"
    ensures RenderMembers(CanonMembers(members), false, "") == PrintMembers(members, printDouble) + "}"
  {
    var m, more := members[0], members[1..];
    assert CanonMember(m).after == "";
    hide *;
    assert members == [m] + more;
    CanonCons(m, more);
    RenderFirst(CanonMember(m), CanonMembers(more));
    OneMemberPrints(m, MembersTail(CanonMembers(members), false, ""), printDouble);
    PrintCons(m, more, printDouble);
    CommaGrouped(PrintMember(m, printDouble), PrintMembers(more, printDouble));
  }

  /** Parsing undoes printing, for every value without doubles. */
  lemma ParseOfPrint(v: JsonValue, printDouble: string -> string, isDouble: string -> bool)
    requires Proper(v)
    ensures Parse(Print(v, printDouble), isDouble) == Ok(v, "")
  {
    CanonPrints(v, printDouble, isDouble);
    hide Value, Render, Wf, Print, Canon, Meaning;
    ValueComplete("", Canon(v), "", isDouble);
    assert "" + (Render(Canon(v)) + "") == Render(Canon(v));
  }
}
