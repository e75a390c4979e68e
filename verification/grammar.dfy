/** The lax grammar that `parse_object` and `parse_array` of src/parser.c
    accept, stated token by token. */
module Grammar {
  import opened Base
  import opened Lexer
  import opened Values
  import opened Parser

  /** A member starts with a string key; any other token ends the run with
      the parent as it was.  This is why `{}` is rejected. */
  lemma ObjectNeedsKey(text: string, pos: nat, acc: seq<JsonValue>)
    requires pos <= |text| && NextToken(text, pos).0.kind != STRING
    ensures ParseObject(text, pos, acc) == Exit(acc, NextToken(text, pos).0)
  {
  }

  /** The key must be followed by a colon; any other token ends the run
      with the parent as it was. */
  lemma ObjectNeedsColon(text: string, pos: nat, acc: seq<JsonValue>)
    requires pos <= |text| && NextToken(text, pos).0.kind == STRING
    requires NextToken(text, NextToken(text, pos).1).0.kind != COLON
    ensures ParseObject(text, pos, acc) == Exit(acc, NextToken(text, NextToken(text, pos).1).0)
  {
  }

  /** The node type a leaf token becomes. */
  function LeafType(k: TokenKind): (t: JsonType)
    requires k == STRING || k == NUMBER || k == TRUE || k == FALSE || k == NULL
  {
    match k
    case STRING => String
    case NUMBER => Number
    case TRUE => True
    case FALSE => False
    case NULL => Null
  }

  /** A leaf token becomes one leaf node of the matching type with the
      member's key; strings and numbers keep the bytes of the token, the
      literals keep no text, and the cursor moves past the token. */
  lemma LeafValue(text: string, at: nat, key: Option<string>, acc: seq<JsonValue>)
    requires at <= |text|
    requires var k := NextToken(text, at).0.kind;
             k == STRING || k == NUMBER || k == TRUE || k == FALSE || k == NULL
    ensures var (t, p) := NextToken(text, at);
            var r := ParseValue(text, at, key, acc);
            && r == Done(r.children, p)
            && r.children[..|acc|] == acc
            && r.children[|acc|].kind == LeafType(t.kind)
            && r.children[|acc|].key == key
            && r.children[|acc|].children.NoList?
            && r.children[|acc|].value
               == if t.kind == STRING || t.kind == NUMBER then Some(Lexeme(text, t)) else None
  {
    TokenTexts(text, at);
  }

  /** `{` opens an object node with the member's key, no text and the
      members `parse_object` reads into it; the node is in the parent
      whether or not that nested parse succeeds. */
  lemma NestedObject(text: string, at: nat, key: Option<string>, acc: seq<JsonValue>)
    requires at <= |text| && NextToken(text, at).0.kind == LBRACE
    ensures var r := ParseObject(text, NextToken(text, at).1, []);
            var node := JsonValue(Object, key, None, List([]));
            r.Done? ==> ParseValue(text, at, key, acc) == Done(acc + [node.(children := List(r.children))], r.pos)
    ensures var r := ParseObject(text, NextToken(text, at).1, []);
            var node := JsonValue(Object, key, None, List([]));
            r.Exit? ==> ParseValue(text, at, key, acc) == Exit(acc + [node.(children := List(r.partial))], r.got)
  {
  }

  /** `[` opens an array node with the member's key, no text and the
      elements `parse_array` reads into it; the node is in the parent
      whether or not that nested parse succeeds. */
  lemma NestedArray(text: string, at: nat, key: Option<string>, acc: seq<JsonValue>)
    requires at <= |text| && NextToken(text, at).0.kind == LBRACKET
    ensures var r := ParseArray(text, NextToken(text, at).1, []);
            var node := JsonValue(Array, key, None, List([]));
            r.Done? ==> ParseValue(text, at, key, acc) == Done(acc + [node.(children := List(r.children))], r.pos)
    ensures var r := ParseArray(text, NextToken(text, at).1, []);
            var node := JsonValue(Array, key, None, List([]));
            r.Exit? ==> ParseValue(text, at, key, acc) == Exit(acc + [node.(children := List(r.partial))], r.got)
  {
  }

  /** After the key and the colon, a token that starts no value is consumed
      and nothing is appended; the object goes on as after a member. */
  lemma ObjectSkipsNonValue(text: string, pos: nat, acc: seq<JsonValue>)
    requires pos <= |text| && NextToken(text, pos).0.kind == STRING
    requires var p1 := NextToken(text, pos).1;
             var p2 := NextToken(text, p1).1;
             && NextToken(text, p1).0.kind == COLON
             && !IsValueKind(NextToken(text, p2).0.kind)
    ensures var p2 := NextToken(text, NextToken(text, pos).1).1;
            ParseObject(text, pos, acc) == AfterMember(text, NextToken(text, p2).1, acc)
  {
  }

  /** After a member exactly one token is read: a comma starts another
      member of the same parent, and every other token, not only `}`, ends
      the object, which keeps the children it has. */
  lemma MemberThenToken(text: string, pos: nat, acc: seq<JsonValue>)
    requires pos <= |text|
    ensures var (t, p) := NextToken(text, pos);
            t.kind == COMMA ==> AfterMember(text, pos, acc) == ParseObject(text, p, acc)
    ensures var (t, p) := NextToken(text, pos);
            t.kind != COMMA ==> AfterMember(text, pos, acc) == Done(acc, p)
  {
  }

  /** `parse_array` stops at the first `]` and skips every comma, wherever
      it stands. */
  lemma ArrayBracketAndComma(text: string, pos: nat, acc: seq<JsonValue>)
    requires pos <= |text|
    ensures var (t, p) := NextToken(text, pos);
            t.kind == RBRACKET ==> ParseArray(text, pos, acc) == Done(acc, p)
    ensures var (t, p) := NextToken(text, pos);
            t.kind == COMMA ==> ParseArray(text, pos, acc) == ParseArray(text, p, acc)
  {
  }

  /** `parse_array` finishes only on a `]`: a finished array has just
      consumed its closing bracket. */
  lemma {:induction false} ArrayEndsAtBracket(text: string, pos: nat, acc: seq<JsonValue>)
    requires pos <= |text|
    ensures var r := ParseArray(text, pos, acc);
            r.Done? ==> 0 < r.pos <= |text| && text[r.pos - 1] == ']'
    decreases |text| - pos, 1
  {
    var (t, p) := NextToken(text, pos);
    if t.kind == RBRACKET {
      ClosingBracket(text, pos);
    } else if t.kind == COMMA {
      ArrayEndsAtBracket(text, p, acc);
    } else if IsValueKind(t.kind) {
      ElementEndsAtBracket(text, pos, acc);
    }
  }

  /** The case of `ArrayEndsAtBracket` where an element comes first: the
      rest of the array is read after it. */
  lemma {:induction false} ElementEndsAtBracket(text: string, pos: nat, acc: seq<JsonValue>)
    requires pos <= |text| && IsValueKind(NextToken(text, pos).0.kind)
    ensures var r := ParseArray(text, pos, acc);
            r.Done? ==> 0 < r.pos <= |text| && text[r.pos - 1] == ']'
    decreases |text| - pos, 0
  {
    var v := ParseValue(text, pos, None, acc);
    if v.Done? {
      ArrayElementStep(text, pos, acc, v.children, v.pos);
      ArrayEndsAtBracket(text, v.pos, v.children);
    } else {
      ArrayElementStops(text, pos, acc, v.partial, v.got);
    }
  }

  /** After an element the array reads on from where the element ended,
      holding the children the element left. */
  lemma ArrayElementStep(text: string, pos: nat, acc: seq<JsonValue>, cs: seq<JsonValue>, e: nat)
    requires pos <= |text| && IsValueKind(NextToken(text, pos).0.kind)
    requires ParseValue(text, pos, None, acc) == Done(cs, e)
    ensures ParseArray(text, pos, acc) == ParseArray(text, e, cs)
  {
  }

  /** An element whose nested parse stops stops the whole array, with the
      children as the element left them. */
  lemma ArrayElementStops(text: string, pos: nat, acc: seq<JsonValue>, partial: seq<JsonValue>, got: Token)
    requires pos <= |text| && IsValueKind(NextToken(text, pos).0.kind)
    requires ParseValue(text, pos, None, acc) == Exit(partial, got)
    ensures ParseArray(text, pos, acc) == Exit(partial, got)
  {
  }

  /** Inside an array, `}`, `:` and the end of the input end the run with
      the parent as it was. */
  lemma ArrayRejects(text: string, pos: nat, acc: seq<JsonValue>)
    requires pos <= |text|
    requires var t := NextToken(text, pos).0;
             t.kind == RBRACE || t.kind == COLON || t.kind == EOF
    ensures ParseArray(text, pos, acc) == Exit(acc, NextToken(text, pos).0)
  {
  }
}
/** Inputs that show where the parser departs from JSON. */
module GrammarExamples {
  import opened Base
  import opened Lexer
  import opened Values
  import opened Parser

  /** A literal is matched as a prefix: `nullable` starts with a null
      token and the cursor stops inside the word. */
  lemma NullablePrefix()
    ensures NextToken("nullable", 0) == (Token(NULL, Some(0), 4), 4)
  {
  }

  /** A member not preceded by a comma ends the object early: the run
      succeeds and the second member is not read. */
  lemma MissingComma()
    ensures Parse("{\"a\": 1 \"b\": 2}")
         == Parsed(Create(Object, None, None).(children := List([Create(Number, Some("a"), Some("1"))])))
  {
    var text := "{\"a\": 1 \"b\": 2}";
    assert NextToken(text, 0) == (Token(LBRACE, Some(0), 1), 1);
    assert NextToken(text, 1) == (Token(STRING, Some(2), 1), 4);
    assert NextToken(text, 4) == (Token(COLON, Some(4), 1), 5);
    assert NextToken(text, 5) == (Token(NUMBER, Some(6), 1), 7);
    assert NextToken(text, 7) == (Token(STRING, Some(9), 1), 11);
    assert Lexeme(text, Token(STRING, Some(2), 1)) == "a";
    assert Lexeme(text, Token(NUMBER, Some(6), 1)) == "1";
    var cs := [Create(Number, Some("a"), Some("1"))];
    assert ParseValue(text, 5, Some("a"), []) == Done(cs, 7);
    assert AfterMember(text, 7, cs) == Done(cs, 11);
    assert ParseObject(text, 1, []) == Done(cs, 11);
  }

  /** Two numbers with only a blank between them are both kept. */
  lemma ArrayWithoutCommas()
    ensures Parse("{\"a\": [1 2]}")
         == Parsed(Create(Object, None, None).(children := List([
              Create(Array, Some("a"), None).(children := List([
                Create(Number, None, Some("1")), Create(Number, None, Some("2"))]))])))
  {
    var text := "{\"a\": [1 2]}";
    assert NextToken(text, 0) == (Token(LBRACE, Some(0), 1), 1);
    assert NextToken(text, 1) == (Token(STRING, Some(2), 1), 4);
    assert NextToken(text, 4) == (Token(COLON, Some(4), 1), 5);
    assert NextToken(text, 5) == (Token(LBRACKET, Some(6), 1), 7);
    assert NextToken(text, 11) == (Token(RBRACE, Some(11), 1), 12);
    assert Lexeme(text, Token(STRING, Some(2), 1)) == "a";
    var elements := TwoElements();
    var arr := Create(Array, Some("a"), None).(children := List(elements));
    assert ParseValue(text, 5, Some("a"), []) == Done([arr], 11);
    assert AfterMember(text, 11, [arr]) == Done([arr], 12);
    assert ParseObject(text, 1, []) == Done([arr], 12);
  }

  /** The elements of the array in `ArrayWithoutCommas`. */
  lemma TwoElements() returns (elements: seq<JsonValue>)
    ensures elements == [Create(Number, None, Some("1")), Create(Number, None, Some("2"))]
    ensures ParseArray("{\"a\": [1 2]}", 7, []) == Done(elements, 11)
  {
    var text := "{\"a\": [1 2]}";
    assert NextToken(text, 7) == (Token(NUMBER, Some(7), 1), 8);
    assert NextToken(text, 8) == (Token(NUMBER, Some(9), 1), 10);
    assert NextToken(text, 10) == (Token(RBRACKET, Some(10), 1), 11);
    assert Lexeme(text, Token(NUMBER, Some(7), 1)) == "1";
    assert Lexeme(text, Token(NUMBER, Some(9), 1)) == "2";
    var n1 := Create(Number, None, Some("1"));
    var n2 := Create(Number, None, Some("2"));
    assert ParseValue(text, 7, None, []) == Done([n1], 8);
    assert ParseValue(text, 8, None, [n1]) == Done([n1, n2], 10);
    assert ParseArray(text, 10, [n1, n2]) == Done([n1, n2], 11);
    elements := [n1, n2];
  }
}
