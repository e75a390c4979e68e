/** Parsing what `print_json` printed gives back the tree that was printed,
    for every tree the parser can build that has no empty object. */
module RoundTrip {
  import opened Base
  import opened Lexer
  import opened Values
  import opened Parser
  import opened Printer
  import Grammar

  /** The bytes of `w` occur in `text` from index `pos` on. */
  predicate At(text: string, pos: nat, w: string) {
    pos + |w| <= |text| && forall i :: 0 <= i < |w| ==> text[pos + i] == w[i]
  }

  lemma AtSplit(text: string, pos: nat, a: string, b: string)
    requires At(text, pos, a + b)
    ensures At(text, pos, a) && At(text, pos + |a|, b)
  {
    forall i | 0 <= i < |a| ensures text[pos + i] == a[i] {
      assert (a + b)[i] == a[i];
    }
    forall i | 0 <= i < |b| ensures text[pos + |a| + i] == b[i] {
      assert (a + b)[|a| + i] == b[i];
    }
  }

  lemma AtJoin(text: string, pos: nat, a: string, b: string)
    requires At(text, pos, a) && At(text, pos + |a|, b)
    ensures At(text, pos, a + b)
  {
    forall i | 0 <= i < |a + b| ensures text[pos + i] == (a + b)[i] {
      if i < |a| {
        assert text[pos + i] == a[i];
      } else {
        assert text[pos + |a| + (i - |a|)] == b[i - |a|];
      }
    }
  }

  lemma AtIndex(text: string, pos: nat, w: string, i: nat)
    requires At(text, pos, w) && i < |w|
    ensures pos + i < |text| && text[pos + i] == w[i]
  {
  }

  /** A byte that is not blank is where the next token starts. */
  lemma NoSkip(text: string, pos: nat)
    requires pos < |text| && !IsSpace(text[pos])
    ensures SkipWhitespace(text, pos) == pos
  {
  }

  lemma LexStructuralAt(text: string, pos: nat, c: char)
    requires pos < |text| && text[pos] == c && IsStructural(c)
    ensures NextToken(text, pos) == (Token(StructuralKind(c), Some(pos), 1), pos + 1)
  {
    NoSkip(text, pos);
    StructuralToken(text, pos);
  }

  lemma LexStringAt(text: string, pos: nat, s: string)
    requires At(text, pos, "\"" + s + "\"") && QuoteFree(s)
    ensures NextToken(text, pos) == (Token(STRING, Some(pos + 1), |s|), pos + |s| + 2)
    ensures Lexeme(text, NextToken(text, pos).0) == s
  {
    var w := "\"" + s + "\"";
    assert text[pos + 0] == w[0] == '"';
    forall i | 0 <= i < |s| ensures text[pos + 1 + i] == s[i] {
      assert text[pos + (1 + i)] == w[1 + i];
    }
    assert text[pos + (1 + |s|)] == w[1 + |s|] == '"';
    NoSkip(text, pos);
    StringToken(text, pos);
    assert text[pos + 1..pos + 1 + |s|] == s;
  }

  lemma LexNumberAt(text: string, pos: nat, s: string)
    requires At(text, pos, s) && NumberText(s)
    requires !IsNumberChar(Peek(text, pos + |s|))
    ensures NextToken(text, pos) == (Token(NUMBER, Some(pos), |s|), pos + |s|)
    ensures Lexeme(text, NextToken(text, pos).0) == s
  {
    assert text[pos + 0] == s[0];
    NoSkip(text, pos);
    forall k | pos <= k < pos + |s| ensures IsNumberChar(text[k]) {
      assert text[pos + (k - pos)] == s[k - pos];
    }
    ScanNumberEnd(text, pos, pos + |s|);
    assert text[pos..pos + |s|] == s;
  }

  /** The number scan stops at the first byte that cannot continue it. */
  lemma {:induction false} ScanNumberEnd(text: string, pos: nat, e: nat)
    requires pos <= e <= |text|
    requires forall k :: pos <= k < e ==> IsNumberChar(text[k])
    requires !IsNumberChar(Peek(text, e))
    ensures ScanNumber(text, pos) == e
    decreases e - pos
  {
    if pos < e {
      ScanNumberEnd(text, pos + 1, e);
    }
  }

  /** The token kind of a literal word. */
  function LiteralKind(w: string): (k: TokenKind) {
    if w == "null" then NULL else if w == "true" then TRUE else FALSE
  }

  lemma LexLiteralAt(text: string, pos: nat, w: string)
    requires w == "null" || w == "true" || w == "false"
    requires At(text, pos, w)
    ensures NextToken(text, pos) == (Token(LiteralKind(w), Some(pos), |w|), pos + |w|)
  {
    assert text[pos + 0] == w[0];
    NoSkip(text, pos);
    assert text[pos..pos + |w|] == w;
    assert StartsWith(text, pos, w);
    LiteralToken(text, pos);
  }

  lemma ParseValueBlank(text: string, at: nat, key: Option<string>, acc: seq<JsonValue>)
    requires at < |text| && IsSpace(text[at])
    requires IsValueKind(NextToken(text, at + 1).0.kind)
    ensures IsValueKind(NextToken(text, at).0.kind)
    ensures ParseValue(text, at, key, acc) == ParseValue(text, at + 1, key, acc)
  {
    SkipBlank(text, at);
  }

  lemma ParseObjectBlank(text: string, pos: nat, acc: seq<JsonValue>)
    requires pos < |text| && IsSpace(text[pos])
    ensures ParseObject(text, pos, acc) == ParseObject(text, pos + 1, acc)
  {
    SkipBlank(text, pos);
  }

  lemma ParseArrayBlank(text: string, pos: nat, acc: seq<JsonValue>)
    requires pos < |text| && IsSpace(text[pos])
    ensures ParseArray(text, pos, acc) == ParseArray(text, pos + 1, acc)
  {
    SkipBlank(text, pos);
    var t := NextToken(text, pos + 1).0;
    if IsValueKind(t.kind) {
      ParseValueBlank(text, pos, None, acc);
    }
  }

  /** The trees whose rendering parses back: what the parser builds, with no
      empty object anywhere. */
  predicate Reparsable(items: seq<JsonValue>, keyed: bool) {
    && AllTraversable(items)
    && forall i :: 0 <= i < |items| ==> Canonical(items[i], keyed) && NoEmptyObject(items[i])
  }

  lemma ReparsableTail(items: seq<JsonValue>, keyed: bool)
    requires |items| > 0 && Reparsable(items, keyed)
    ensures Reparsable(items[1..], keyed)
    ensures Canonical(items[0], keyed) && NoEmptyObject(items[0]) && Traversable(items[0])
  {
    assert forall i :: 0 <= i < |items[1..]| ==> items[1..][i] == items[i + 1];
  }

  // ---------------------------------------------------------------------
  // Where things are printed

  /** Where a printed value ends. */
  function ValueEnd(pos: nat, v: JsonValue): (e: nat)
    requires Traversable(v)
  {
    pos + |Render(v)|
  }

  /** Where a printed object member ends: its key prefix, then its value. */
  function MemberEnd(pos: nat, c: JsonValue): (e: nat)
    requires Traversable(c)
  {
    pos + |KeyPrefix(c, true)| + |Render(c)|
  }

  /** `v` is printed at `pos`, and the byte after it cannot continue a
      number. */
  predicate ValueAt(text: string, pos: nat, v: JsonValue) {
    && Traversable(v)
    && At(text, pos, Render(v))
    && !IsNumberChar(Peek(text, ValueEnd(pos, v)))
  }

  /** The members of an object are printed from `pos` on: each as its key
      prefix and its value, separated by `, `, the last one followed by
      `}`, which ends before `end`. */
  predicate MembersPrinted(text: string, pos: nat, items: seq<JsonValue>, end: nat)
    decreases |items|, 1
  {
    |items| > 0 && AllTraversable(items) && MemberLaidOut(text, pos, items, end)
  }

  /** The first member is printed at `pos`, then `}` if it is the last one,
      or `, ` and the remaining members. */
  predicate MemberLaidOut(text: string, pos: nat, items: seq<JsonValue>, end: nat)
    decreases |items|, 0
  {
    && |items| > 0 && AllTraversable(items)
    && Canonical(items[0], true) && NoEmptyObject(items[0])
    && At(text, pos, KeyPrefix(items[0], true))
    && ValueAt(text, pos + |KeyPrefix(items[0], true)|, items[0])
    && if |items| == 1 then
         && At(text, MemberEnd(pos, items[0]), "}")
         && end == MemberEnd(pos, items[0]) + 1
       else
         && At(text, MemberEnd(pos, items[0]), ", ")
         && MembersPrinted(text, MemberEnd(pos, items[0]) + 2, items[1..], end)
  }

  /** The elements of a non-empty array are printed from `pos` on,
      separated by `, ` and followed by `]`, which ends before `end`. */
  predicate ElementsPrinted(text: string, pos: nat, items: seq<JsonValue>, end: nat)
    decreases |items|, 1
  {
    |items| > 0 && AllTraversable(items) && ElementLaidOut(text, pos, items, end)
  }

  /** The first element is printed at `pos`, then `]` if it is the last
      one, or `, ` and the remaining elements. */
  predicate ElementLaidOut(text: string, pos: nat, items: seq<JsonValue>, end: nat)
    decreases |items|, 0
  {
    && |items| > 0 && AllTraversable(items)
    && Canonical(items[0], false) && NoEmptyObject(items[0])
    && ValueAt(text, pos, items[0])
    && if |items| == 1 then
         && At(text, ValueEnd(pos, items[0]), "]")
         && end == ValueEnd(pos, items[0]) + 1
       else
         && At(text, ValueEnd(pos, items[0]), ", ")
         && ElementsPrinted(text, ValueEnd(pos, items[0]) + 2, items[1..], end)
  }

  // ---------------------------------------------------------------------
  // What the parser reads

  /** The value production at `pos` appends `v` itself and stops where its
      printed form ends. */
  predicate ValueRead(text: string, pos: nat, acc: seq<JsonValue>, v: JsonValue) {
    && Traversable(v) && pos <= |text|
    && IsValueKind(NextToken(text, pos).0.kind)
    && ParseValue(text, pos, v.key, acc) == Done(acc + [v], ValueEnd(pos, v))
  }

  /** A member whose key prefix is printed at `pos`: the value production
      after the prefix appends `c` and stops at `e`. */
  predicate MemberRead(text: string, pos: nat, acc: seq<JsonValue>, c: JsonValue, e: nat) {
    && c.key.Some? && QuoteFree(c.key.value)
    && At(text, pos, "\"" + c.key.value + "\": ")
    && pos + |c.key.value| + 4 <= |text|
    && IsValueKind(NextToken(text, pos + |c.key.value| + 4).0.kind)
    && ParseValue(text, pos + |c.key.value| + 4, c.key, acc) == Done(acc + [c], e)
  }

  /** `parse_object` at `pos` appends `items` and stops at `end`. */
  predicate MembersRead(text: string, pos: nat, acc: seq<JsonValue>, items: seq<JsonValue>, end: nat) {
    && |items| > 0 && AllTraversable(items) && pos <= |text|
    && ParseObject(text, pos, acc) == Done(acc + items, end)
  }

  /** `parse_array` at `pos` appends `items` and stops at `end`. */
  predicate ElementsRead(text: string, pos: nat, acc: seq<JsonValue>, items: seq<JsonValue>, end: nat) {
    && AllTraversable(items) && pos <= |text|
    && ParseArray(text, pos, acc) == Done(acc + items, end)
  }

  /** Appending the head and then the tail of a list appends the list. */
  lemma ConsSplit(acc: seq<JsonValue>, items: seq<JsonValue>)
    requires |items| > 0
    ensures acc + [items[0]] + items[1..] == acc + items
  {
    assert [items[0]] + items[1..] == items;
  }

  /** Appending a one-element list appends its element. */
  lemma SingleSplit(acc: seq<JsonValue>, items: seq<JsonValue>)
    requires |items| == 1
    ensures acc + items == acc + [items[0]]
  {
    assert items == [items[0]];
  }

  // ---------------------------------------------------------------------
  // Values

  /** A value printed at `pos` is read back by the value production as that
      same value. */
  lemma {:induction false} ValueRoundTrip(v: JsonValue, text: string, pos: nat, acc: seq<JsonValue>)
    requires ShapeFits(v) && NoEmptyObject(v) && ValueAt(text, pos, v)
    ensures ValueRead(text, pos, acc, v)
    decreases v, 1
  {
    if v.kind == Object {
      ObjectRoundTrip(v, text, pos, acc);
    } else if v.kind == Array {
      ArrayRoundTrip(v, text, pos, acc);
    } else {
      LeafRoundTrip(v, text, pos, acc);
    }
  }

  /** The leaf case of `ValueRoundTrip`. */
  lemma LeafRoundTrip(v: JsonValue, text: string, pos: nat, acc: seq<JsonValue>)
    requires !IsContainer(v.kind) && ShapeFits(v) && ValueAt(text, pos, v)
    ensures ValueRead(text, pos, acc, v)
  {
    match v.kind
    case String =>
      LexStringAt(text, pos, v.value.value);
    case Number =>
      LexNumberAt(text, pos, v.value.value);
    case True =>
      LexLiteralAt(text, pos, "true");
    case False =>
      LexLiteralAt(text, pos, "false");
    case Null =>
      LexLiteralAt(text, pos, "null");
  }

  /** Text that starts with one opening byte, a body and a closing part. */
  lemma BracketLayout(text: string, pos: nat, open: string, body: string, close: string)
    requires |open| == 1 && At(text, pos, open + body + close)
    ensures pos < |text| && text[pos] == open[0]
    ensures At(text, pos + 1, body + close)
  {
    AtSplit(text, pos, open + body, close);
    AtSplit(text, pos, open, body);
    AtJoin(text, pos + 1, body, close);
    AtIndex(text, pos, open, 0);
  }

  /** The children of a printed container are the parser's children, with
      no empty object. */
  lemma ContainerChildren(v: JsonValue)
    requires IsContainer(v.kind) && ShapeFits(v) && NoEmptyObject(v) && Traversable(v)
    ensures Reparsable(v.children.items, v.kind == Object)
    ensures v.kind == Object ==> |v.children.items| > 0
  {
  }

  // ---------------------------------------------------------------------
  // Objects

  /** The object case of `ValueRoundTrip`. */
  lemma {:induction false} ObjectRoundTrip(v: JsonValue, text: string, pos: nat, acc: seq<JsonValue>)
    requires v.kind == Object && ShapeFits(v) && NoEmptyObject(v) && ValueAt(text, pos, v)
    ensures ValueRead(text, pos, acc, v)
    decreases v, 0
  {
    ObjectLayout(v, text, pos);
    MembersRoundTrip(v.children.items, text, pos + 1, [], ValueEnd(pos, v));
    OpenObject(v, text, pos, acc);
  }

  /** A printed object: `{`, then its members. */
  lemma ObjectLayout(v: JsonValue, text: string, pos: nat)
    requires v.kind == Object && ShapeFits(v) && NoEmptyObject(v) && ValueAt(text, pos, v)
    ensures pos < |text| && text[pos] == '{'
    ensures MembersPrinted(text, pos + 1, v.children.items, ValueEnd(pos, v))
  {
    assert Render(v) == "{" + RenderList(v.children.items, true) + "}";
    BracketLayout(text, pos, "{", RenderList(v.children.items, true), "}");
    ContainerChildren(v);
    MembersPrintedFrom(v.children.items, text, pos + 1);
  }

  /** An opening brace at `pos` followed by members that `parse_object`
      reads: the value production appends the object. */
  lemma OpenObject(v: JsonValue, text: string, pos: nat, acc: seq<JsonValue>)
    requires v.kind == Object && v.value.None? && v.children.List? && Traversable(v)
    requires pos < |text| && text[pos] == '{'
    requires MembersRead(text, pos + 1, [], v.children.items, ValueEnd(pos, v))
    ensures ValueRead(text, pos, acc, v)
  {
    LexStructuralAt(text, pos, '{');
    assert [] + v.children.items == v.children.items;
  }

  /** The members of an object, printed, are read back by `parse_object` in
      order. */
  lemma {:induction false} MembersRoundTrip(items: seq<JsonValue>, text: string, pos: nat, acc: seq<JsonValue>, end: nat)
    requires MembersPrinted(text, pos, items, end)
    ensures MembersRead(text, pos, acc, items, end)
    decreases items, 2
  {
    var e := MemberHead(items, text, pos, acc, end);
    if |items| == 1 {
      LastMember(text, pos, acc, items, e);
    } else {
      MembersRoundTrip(items[1..], text, e + 2, acc + [items[0]], end);
      MembersCons(text, pos, acc, items, e, end);
    }
  }

  /** The first printed member is read by `parse_object` up to the value
      production, which ends at `e`, where the closing brace or the
      separator and the rest follow. */
  lemma MemberHead(items: seq<JsonValue>, text: string, pos: nat, acc: seq<JsonValue>, end: nat) returns (e: nat)
    requires MembersPrinted(text, pos, items, end)
    ensures pos <= |text| && MemberRead(text, pos, acc, items[0], e)
    ensures |items| == 1 ==> At(text, e, "}") && end == e + 1
    ensures |items| > 1 ==> At(text, e, ", ") && MembersPrinted(text, e + 2, items[1..], end)
    decreases items, 1
  {
    assert MemberLaidOut(text, pos, items, end);
    MemberValue(items[0], text, pos, acc);
    e := MemberEnd(pos, items[0]);
  }

  /** A member printed at `pos` is read up to the end of its value. */
  lemma MemberValue(c: JsonValue, text: string, pos: nat, acc: seq<JsonValue>)
    requires Canonical(c, true) && NoEmptyObject(c)
    requires At(text, pos, KeyPrefix(c, true)) && ValueAt(text, pos + |KeyPrefix(c, true)|, c)
    ensures MemberRead(text, pos, acc, c, MemberEnd(pos, c))
    decreases c, 2
  {
    ValueRoundTrip(c, text, pos + |KeyPrefix(c, true)|, acc);
    assert KeyPrefix(c, true) == "\"" + c.key.value + "\": ";
  }

  /** The last member, followed by `}`, ends `parse_object`. */
  lemma LastMember(text: string, pos: nat, acc: seq<JsonValue>, items: seq<JsonValue>, e: nat)
    requires |items| == 1 && pos <= |text| && MemberRead(text, pos, acc, items[0], e) && At(text, e, "}")
    ensures ParseObject(text, pos, acc) == Done(acc + items, e + 1)
  {
    ObjectMemberStep(text, pos, acc, items[0], e);
    AtIndex(text, e, "}", 0);
    LexStructuralAt(text, e, '}');
    SingleSplit(acc, items);
  }

  /** A member, `, ` and the members `parse_object` reads after it are read
      as the whole list. */
  lemma MembersCons(text: string, pos: nat, acc: seq<JsonValue>, items: seq<JsonValue>, e: nat, end: nat)
    requires |items| > 1 && pos <= |text| && MemberRead(text, pos, acc, items[0], e) && At(text, e, ", ")
    requires ParseObject(text, e + 2, acc + [items[0]]) == Done(acc + [items[0]] + items[1..], end)
    ensures ParseObject(text, pos, acc) == Done(acc + items, end)
  {
    ObjectMemberStep(text, pos, acc, items[0], e);
    AtIndex(text, e, ", ", 0);
    AtIndex(text, e, ", ", 1);
    AfterMemberComma(text, e, acc + [items[0]]);
    ConsSplit(acc, items);
  }

  /** `parse_object` reads a printed key, the colon and the blank, and hands
      the value to the value production. */
  lemma ObjectMemberStep(text: string, pos: nat, acc: seq<JsonValue>, c: JsonValue, e: nat)
    requires pos <= |text| && MemberRead(text, pos, acc, c, e)
    ensures e <= |text| && ParseObject(text, pos, acc) == AfterMember(text, e, acc + [c])
  {
    var k := c.key.value;
    KeyTokens(text, pos, k);
    MemberTokensRead(text, pos, acc, c, e, k);
  }

  /** `ObjectMemberStep` once the key prefix is lexed: the key token, the
      colon and a blank, then the value. */
  lemma MemberTokensRead(text: string, pos: nat, acc: seq<JsonValue>, c: JsonValue, e: nat, k: string)
    requires pos <= |text| && c.key == Some(k)
    requires NextToken(text, pos) == (Token(STRING, Some(pos + 1), |k|), pos + |k| + 2)
    requires Lexeme(text, NextToken(text, pos).0) == k
    requires NextToken(text, pos + |k| + 2) == (Token(COLON, Some(pos + |k| + 2), 1), pos + |k| + 3)
    requires pos + |k| + 3 < |text| && IsSpace(text[pos + |k| + 3])
    requires IsValueKind(NextToken(text, pos + |k| + 4).0.kind)
    requires ParseValue(text, pos + |k| + 4, c.key, acc) == Done(acc + [c], e)
    ensures e <= |text| && ParseObject(text, pos, acc) == AfterMember(text, e, acc + [c])
  {
    ParseValueBlank(text, pos + |k| + 3, Some(k), acc);
    ObjectUnfold(text, pos, acc, pos + |k| + 2, pos + |k| + 3, k);
  }

  /** The tokens of a printed key prefix: the key, the colon, then a blank. */
  lemma KeyTokens(text: string, pos: nat, k: string)
    requires At(text, pos, "\"" + k + "\": ") && QuoteFree(k)
    ensures NextToken(text, pos) == (Token(STRING, Some(pos + 1), |k|), pos + |k| + 2)
    ensures Lexeme(text, NextToken(text, pos).0) == k
    ensures NextToken(text, pos + |k| + 2) == (Token(COLON, Some(pos + |k| + 2), 1), pos + |k| + 3)
    ensures pos + |k| + 3 < |text| && IsSpace(text[pos + |k| + 3])
  {
    KeyAt(text, pos, k);
    LexStringAt(text, pos, k);
    LexStructuralAt(text, pos + |k| + 2, ':');
  }

  /** `parse_object` once the key and the colon are read: the value
      production at `p2` decides the rest. */
  lemma ObjectUnfold(text: string, pos: nat, acc: seq<JsonValue>, p1: nat, p2: nat, key: string)
    requires pos <= |text|
    requires NextToken(text, pos).0.kind == STRING && NextToken(text, pos).1 == p1
    requires Lexeme(text, NextToken(text, pos).0) == key
    requires p1 <= |text| && NextToken(text, p1).0.kind == COLON && NextToken(text, p1).1 == p2
    requires p2 <= |text| && IsValueKind(NextToken(text, p2).0.kind)
    ensures ParseObject(text, pos, acc)
            == match ParseValue(text, p2, Some(key), acc)
               case Exit(partial, got) => Exit(partial, got)
               case Done(cs, p4) => AfterMember(text, p4, cs)
  {
  }

  /** A printed key prefix: the quoted key, a colon and a blank. */
  lemma KeyAt(text: string, pos: nat, k: string)
    requires At(text, pos, "\"" + k + "\": ")
    ensures At(text, pos, "\"" + k + "\"")
    ensures text[pos + |k| + 2] == ':' && text[pos + |k| + 3] == ' '
  {
    var w := "\"" + k + "\": ";
    AtIndex(text, pos, w, |k| + 2);
    AtIndex(text, pos, w, |k| + 3);
    forall i | 0 <= i < |k| + 2 ensures text[pos + i] == ("\"" + k + "\"")[i] {
      AtIndex(text, pos, w, i);
    }
  }

  /** After a member: `, ` continues the object. */
  lemma AfterMemberComma(text: string, e: nat, cs: seq<JsonValue>)
    requires e + 1 < |text| && text[e] == ',' && text[e + 1] == ' '
    ensures AfterMember(text, e, cs) == ParseObject(text, e + 2, cs)
  {
    LexStructuralAt(text, e, ',');
    CommaThenObject(text, e, cs, e + 1);
  }

  /** A comma token and a blank after a member hand over to `parse_object`. */
  lemma CommaThenObject(text: string, e: nat, cs: seq<JsonValue>, p: nat)
    requires e <= |text| && NextToken(text, e).0.kind == COMMA && NextToken(text, e).1 == p
    requires p < |text| && IsSpace(text[p])
    ensures AfterMember(text, e, cs) == ParseObject(text, p + 1, cs)
  {
    ParseObjectBlank(text, p, cs);
  }

  // ---------------------------------------------------------------------
  // Arrays

  /** The array case of `ValueRoundTrip`. */
  lemma {:induction false} ArrayRoundTrip(v: JsonValue, text: string, pos: nat, acc: seq<JsonValue>)
    requires v.kind == Array && ShapeFits(v) && NoEmptyObject(v) && ValueAt(text, pos, v)
    ensures ValueRead(text, pos, acc, v)
    decreases v, 0
  {
    if |v.children.items| == 0 {
      EmptyArrayRoundTrip(v, text, pos, acc);
    } else {
      ArrayLayout(v, text, pos);
      ElementsRoundTrip(v.children.items, text, pos + 1, [], ValueEnd(pos, v));
      OpenArray(v, text, pos, acc);
    }
  }

  /** `[]` is read back as the empty array. */
  lemma EmptyArrayRoundTrip(v: JsonValue, text: string, pos: nat, acc: seq<JsonValue>)
    requires v.kind == Array && ShapeFits(v) && ValueAt(text, pos, v) && |v.children.items| == 0
    ensures ValueRead(text, pos, acc, v)
  {
    assert Render(v) == "[]";
    AtIndex(text, pos, "[]", 0);
    AtIndex(text, pos, "[]", 1);
    LexStructuralAt(text, pos, '[');
    LexStructuralAt(text, pos + 1, ']');
  }

  /** A printed array: `[`, then its elements. */
  lemma ArrayLayout(v: JsonValue, text: string, pos: nat)
    requires v.kind == Array && ShapeFits(v) && NoEmptyObject(v) && ValueAt(text, pos, v)
    requires |v.children.items| > 0
    ensures pos < |text| && text[pos] == '['
    ensures ElementsPrinted(text, pos + 1, v.children.items, ValueEnd(pos, v))
  {
    assert Render(v) == "[" + RenderList(v.children.items, false) + "]";
    BracketLayout(text, pos, "[", RenderList(v.children.items, false), "]");
    ContainerChildren(v);
    ElementsPrintedFrom(v.children.items, text, pos + 1);
  }

  /** An opening bracket at `pos` followed by elements that `parse_array`
      reads: the value production appends the array. */
  lemma OpenArray(v: JsonValue, text: string, pos: nat, acc: seq<JsonValue>)
    requires v.kind == Array && v.value.None? && v.children.List? && Traversable(v)
    requires pos < |text| && text[pos] == '['
    requires ElementsRead(text, pos + 1, [], v.children.items, ValueEnd(pos, v))
    ensures ValueRead(text, pos, acc, v)
  {
    LexStructuralAt(text, pos, '[');
    assert [] + v.children.items == v.children.items;
  }

  /** The elements of an array, printed, are read back by `parse_array` in
      order. */
  lemma {:induction false} ElementsRoundTrip(items: seq<JsonValue>, text: string, pos: nat, acc: seq<JsonValue>, end: nat)
    requires ElementsPrinted(text, pos, items, end)
    ensures ElementsRead(text, pos, acc, items, end)
    decreases items, 2
  {
    var e := ElementHead(items, text, pos, acc, end);
    if |items| == 1 {
      LastElement(text, pos, acc, items, e);
    } else {
      ElementsRoundTrip(items[1..], text, e + 2, acc + [items[0]], end);
      ElementsCons(text, pos, acc, items, e, end);
    }
  }

  /** The first printed element is read by the value production and ends
      at `e`, where the closing bracket or the separator and the rest
      follow. */
  lemma ElementHead(items: seq<JsonValue>, text: string, pos: nat, acc: seq<JsonValue>, end: nat) returns (e: nat)
    requires ElementsPrinted(text, pos, items, end)
    ensures pos <= |text| && IsValueKind(NextToken(text, pos).0.kind)
    ensures ParseValue(text, pos, None, acc) == Done(acc + [items[0]], e)
    ensures |items| == 1 ==> At(text, e, "]") && end == e + 1
    ensures |items| > 1 ==> At(text, e, ", ") && ElementsPrinted(text, e + 2, items[1..], end)
    decreases items, 1
  {
    assert ElementLaidOut(text, pos, items, end);
    ValueRoundTrip(items[0], text, pos, acc);
    e := ValueEnd(pos, items[0]);
  }

  /** The last element, followed by `]`, ends `parse_array`. */
  lemma LastElement(text: string, pos: nat, acc: seq<JsonValue>, items: seq<JsonValue>, e: nat)
    requires |items| == 1 && pos <= |text| && IsValueKind(NextToken(text, pos).0.kind)
    requires ParseValue(text, pos, None, acc) == Done(acc + [items[0]], e) && At(text, e, "]")
    ensures ParseArray(text, pos, acc) == Done(acc + items, e + 1)
  {
    Grammar.ArrayElementStep(text, pos, acc, acc + [items[0]], e);
    AtIndex(text, e, "]", 0);
    LexStructuralAt(text, e, ']');
    SingleSplit(acc, items);
  }

  /** An element, `, ` and the elements `parse_array` reads after it are
      read as the whole list. */
  lemma ElementsCons(text: string, pos: nat, acc: seq<JsonValue>, items: seq<JsonValue>, e: nat, end: nat)
    requires |items| > 1 && pos <= |text| && IsValueKind(NextToken(text, pos).0.kind)
    requires ParseValue(text, pos, None, acc) == Done(acc + [items[0]], e) && At(text, e, ", ")
    requires ParseArray(text, e + 2, acc + [items[0]]) == Done(acc + [items[0]] + items[1..], end)
    ensures ParseArray(text, pos, acc) == Done(acc + items, end)
  {
    Grammar.ArrayElementStep(text, pos, acc, acc + [items[0]], e);
    ArrayComma(text, e, acc + [items[0]]);
    ConsSplit(acc, items);
  }

  /** After an element: `, ` is skipped. */
  lemma ArrayComma(text: string, e: nat, cs: seq<JsonValue>)
    requires At(text, e, ", ")
    ensures ParseArray(text, e, cs) == ParseArray(text, e + 2, cs)
  {
    AtIndex(text, e, ", ", 0);
    AtIndex(text, e, ", ", 1);
    LexStructuralAt(text, e, ',');
    ParseArrayBlank(text, e + 1, cs);
  }

  // ---------------------------------------------------------------------
  // From the printed list to the printed items

  /** One unfolding of `RenderList` on a non-empty list. */
  lemma RenderListCons(items: seq<JsonValue>, withKeys: bool)
    requires |items| > 0 && AllTraversable(items)
    ensures |items| == 1 ==> RenderList(items, withKeys) == KeyPrefix(items[0], withKeys) + Render(items[0])
    ensures |items| > 1 ==>
              RenderList(items, withKeys)
              == KeyPrefix(items[0], withKeys) + Render(items[0]) + (", " + RenderList(items[1..], withKeys))
  {
  }

  /** The printed members, item by item. */
  lemma {:induction false} MembersPrintedFrom(items: seq<JsonValue>, text: string, pos: nat)
    requires |items| > 0 && Reparsable(items, true) && At(text, pos, RenderList(items, true) + "}")
    ensures MembersPrinted(text, pos, items, pos + |RenderList(items, true)| + 1)
    decreases items
  {
    ReparsableTail(items, true);
    if |items| == 1 {
      LastMemberSplit(items, text, pos);
    } else {
      MemberSplit(items, text, pos);
      MembersPrintedFrom(items[1..], text, MemberEnd(pos, items[0]) + 2);
    }
  }

  /** The last printed member: its key prefix, its value, then the closing
      brace. */
  lemma LastMemberSplit(items: seq<JsonValue>, text: string, pos: nat)
    requires |items| == 1 && AllTraversable(items) && At(text, pos, RenderList(items, true) + "}")
    ensures At(text, pos, KeyPrefix(items[0], true))
    ensures ValueAt(text, pos + |KeyPrefix(items[0], true)|, items[0])
    ensures At(text, MemberEnd(pos, items[0]), "}")
    ensures pos + |RenderList(items, true)| == MemberEnd(pos, items[0])
  {
    RenderListCons(items, true);
    assert RenderList(items, true) + "}" == KeyPrefix(items[0], true) + Render(items[0]) + "" + "}";
    ItemSplit(text, pos, KeyPrefix(items[0], true), Render(items[0]), "", "}");
  }

  /** A printed member that is not the last: its key prefix, its value, the
      separator, then the rest of the list and the closing brace. */
  lemma MemberSplit(items: seq<JsonValue>, text: string, pos: nat)
    requires |items| > 1 && AllTraversable(items) && At(text, pos, RenderList(items, true) + "}")
    ensures At(text, pos, KeyPrefix(items[0], true))
    ensures ValueAt(text, pos + |KeyPrefix(items[0], true)|, items[0])
    ensures MemberEnd(pos, items[0]) + 1 < |text|
    ensures At(text, MemberEnd(pos, items[0]), ", ")
    ensures At(text, MemberEnd(pos, items[0]) + 2, RenderList(items[1..], true) + "}")
    ensures pos + |RenderList(items, true)| == MemberEnd(pos, items[0]) + 2 + |RenderList(items[1..], true)|
  {
    RenderListCons(items, true);
    ItemSplit(text, pos, KeyPrefix(items[0], true), Render(items[0]), ", " + RenderList(items[1..], true), "}");
    SeparatorLayout(items[1..], true, "}", text, MemberEnd(pos, items[0]));
  }

  /** Text made of four parts, part by part; the byte after the second is
      the first byte of the third, or of the fourth when the third is
      empty. */
  lemma ItemSplit(text: string, pos: nat, a: string, b: string, tail: string, close: string)
    requires |close| > 0 && At(text, pos, a + b + tail + close)
    ensures At(text, pos, a) && At(text, pos + |a|, b) && At(text, pos + |a| + |b|, tail + close)
    ensures pos + |a| + |b| < |text|
    ensures text[pos + |a| + |b|] == (if |tail| == 0 then close[0] else tail[0])
  {
    AtSplit(text, pos, a + b + tail, close);
    AtSplit(text, pos, a + b, tail);
    AtSplit(text, pos, a, b);
    AtJoin(text, pos + |a| + |b|, tail, close);
    AtIndex(text, pos + |a| + |b|, tail + close, 0);
  }

  /** The separator in front of the rest of a list. */
  lemma SeparatorLayout(rest: seq<JsonValue>, keyed: bool, close: string, text: string, e: nat)
    requires AllTraversable(rest)
    requires At(text, e, ", " + RenderList(rest, keyed) + close)
    ensures e + 1 < |text| && text[e] == ',' && text[e + 1] == ' '
    ensures At(text, e, ", ")
    ensures At(text, e + 2, RenderList(rest, keyed) + close)
  {
    var body := RenderList(rest, keyed);
    AtIndex(text, e, ", " + body + close, 0);
    AtIndex(text, e, ", " + body + close, 1);
    AtSplit(text, e, ", " + body, close);
    AtSplit(text, e, ", ", body);
    AtJoin(text, e + 2, body, close);
  }

  /** The printed elements, item by item. */
  lemma {:induction false} ElementsPrintedFrom(items: seq<JsonValue>, text: string, pos: nat)
    requires |items| > 0 && Reparsable(items, false) && At(text, pos, RenderList(items, false) + "]")
    ensures ElementsPrinted(text, pos, items, pos + |RenderList(items, false)| + 1)
    decreases items
  {
    if |items| == 1 {
      LastElementPrinted(items, text, pos);
    } else {
      var q := RestElementsAt(items, text, pos);
      ElementsPrintedFrom(items[1..], text, q);
      ElementsPrintedCons(items, text, pos, q, pos + |RenderList(items, false)| + 1);
    }
  }

  /** A printed list of one element. */
  lemma LastElementPrinted(items: seq<JsonValue>, text: string, pos: nat)
    requires |items| == 1 && Reparsable(items, false) && At(text, pos, RenderList(items, false) + "]")
    ensures ElementsPrinted(text, pos, items, pos + |RenderList(items, false)| + 1)
  {
    ReparsableTail(items, false);
    LastElementSplit(items, text, pos);
    assert ElementLaidOut(text, pos, items, pos + |RenderList(items, false)| + 1);
  }

  /** Where the elements after the first are printed. */
  lemma RestElementsAt(items: seq<JsonValue>, text: string, pos: nat) returns (q: nat)
    requires |items| > 1 && Reparsable(items, false) && At(text, pos, RenderList(items, false) + "]")
    ensures Reparsable(items[1..], false) && At(text, q, RenderList(items[1..], false) + "]")
    ensures q + |RenderList(items[1..], false)| == pos + |RenderList(items, false)|
  {
    ReparsableTail(items, false);
    ElementSplit(items, text, pos);
    q := ValueEnd(pos, items[0]) + 2;
  }

  /** A first element followed by `, ` and the printed rest. */
  lemma ElementsPrintedCons(items: seq<JsonValue>, text: string, pos: nat, q: nat, end: nat)
    requires |items| > 1 && Reparsable(items, false) && At(text, pos, RenderList(items, false) + "]")
    requires q + |RenderList(items[1..], false)| == pos + |RenderList(items, false)|
    requires ElementsPrinted(text, q, items[1..], end)
    ensures ElementsPrinted(text, pos, items, end)
  {
    ReparsableTail(items, false);
    ElementSplit(items, text, pos);
    assert ElementLaidOut(text, pos, items, end);
  }

  /** The last printed element, then the closing bracket. */
  lemma LastElementSplit(items: seq<JsonValue>, text: string, pos: nat)
    requires |items| == 1 && AllTraversable(items) && At(text, pos, RenderList(items, false) + "]")
    ensures ValueAt(text, pos, items[0])
    ensures At(text, ValueEnd(pos, items[0]), "]")
    ensures pos + |RenderList(items, false)| == ValueEnd(pos, items[0])
  {
    RenderListCons(items, false);
    assert RenderList(items, false) + "]" == KeyPrefix(items[0], false) + Render(items[0]) + "" + "]";
    ItemSplit(text, pos, KeyPrefix(items[0], false), Render(items[0]), "", "]");
  }

  /** A printed element that is not the last, the separator, then the rest
      of the list and the closing bracket. */
  lemma ElementSplit(items: seq<JsonValue>, text: string, pos: nat)
    requires |items| > 1 && AllTraversable(items) && At(text, pos, RenderList(items, false) + "]")
    ensures ValueAt(text, pos, items[0])
    ensures ValueEnd(pos, items[0]) + 1 < |text|
    ensures At(text, ValueEnd(pos, items[0]), ", ")
    ensures At(text, ValueEnd(pos, items[0]) + 2, RenderList(items[1..], false) + "]")
    ensures pos + |RenderList(items, false)| == ValueEnd(pos, items[0]) + 2 + |RenderList(items[1..], false)|
  {
    RenderListCons(items, false);
    ItemSplit(text, pos, KeyPrefix(items[0], false), Render(items[0]), ", " + RenderList(items[1..], false), "]");
    SeparatorLayout(items[1..], false, "]", text, ValueEnd(pos, items[0]));
  }

  // ---------------------------------------------------------------------
  // The whole document

  /** A tree the parser can build, with no empty object, printed by
      `print_json` and fed back to the driver, is parsed as that same
      tree. */
  lemma RenderThenParse(root: JsonValue)
    requires root.kind == Object && Canonical(root, false) && NoEmptyObject(root)
    ensures Traversable(root)
    ensures Parse(Render(root)) == Parsed(root)
  {
    CanonicalTraversable(root, false);
    var text := Render(root);
    assert At(text, 0, text);
    ObjectLayout(root, text, 0);
    MembersRoundTrip(root.children.items, text, 1, [], |text|);
    DriverReads(root, text, |text|);
  }

  /** The driver over `{` followed by members that `parse_object` reads. */
  lemma DriverReads(root: JsonValue, text: string, end: nat)
    requires root.kind == Object && root.key.None? && root.value.None? && root.children.List?
    requires 0 < |text| && text[0] == '{'
    requires MembersRead(text, 1, [], root.children.items, end)
    ensures Parse(text) == Parsed(root)
  {
    LexStructuralAt(text, 0, '{');
    assert [] + root.children.items == root.children.items;
  }

  /** Parsing is stable: printing a parsed document with no empty object
      and parsing the output gives the same document again. */
  lemma ReparseIsIdentity(text: string)
    requires Parse(text).Parsed? && NoEmptyObject(Parse(text).root)
    ensures Traversable(Parse(text).root)
    ensures Parse(Render(Parse(text).root)) == Parse(text)
  {
    RenderThenParse(Parse(text).root);
  }

  /** Why empty objects are excluded: `print_json` prints an empty root as
      `{}`, and the driver rejects that text at the closing brace, where
      `parse_object` asserts a string key. */
  lemma EmptyObjectDoesNotRoundTrip()
    ensures Render(Create(Object, None, None)) == "{}"
    ensures Parse("{}").Failed? && Parse("{}").got.kind == RBRACE
  {
    LexStructuralAt("{}", 0, '{');
    LexStructuralAt("{}", 1, '}');
  }
}
