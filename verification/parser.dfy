/** The recursive-descent parser of src/parser.c and the driver of
    src/main.c.

    `parse_object` and `parse_array` append children to a parent that the
    caller owns.  Here each takes the parent's children so far (`acc`) and
    returns the children after the call (`Done`), together with the lexer
    cursor.  A call of `exit(EXIT_FAILURE)` ends the whole run: it becomes
    `Exit`, carrying the parent's children as they stood at that moment and
    the token that was rejected. */
module Parser {
  import opened Base
  import opened Lexer
  import opened Values

  datatype Parsed =
    | Done(children: seq<JsonValue>, pos: nat)
    | Exit(partial: seq<JsonValue>, got: Token)

  /** The token kinds that start a value. */
  predicate IsValueKind(k: TokenKind) {
    k == STRING || k == NUMBER || k == TRUE || k == FALSE || k == NULL
    || k == LBRACE || k == LBRACKET
  }

  /** `cs` is `acc` with zero or more children appended. */
  predicate Extends(acc: seq<JsonValue>, cs: seq<JsonValue>) {
    |acc| <= |cs| && forall i :: 0 <= i < |acc| ==> cs[i] == acc[i]
  }

  /** The children from index `from` on are canonical members (keyed) or
      elements (not keyed). */
  predicate CanonicalFrom(cs: seq<JsonValue>, from: nat, keyed: bool) {
    forall i :: from <= i < |cs| ==> Canonical(cs[i], keyed)
  }

  /** The value production shared by `parse_object` and `parse_array`: the
      token at `at` starts a value; a leaf is appended with `key`, and an
      object or array is appended and then filled by the recursive call. */
  function ParseValue(text: string, at: nat, key: Option<string>, acc: seq<JsonValue>): (r: Parsed)
    requires at <= |text| && IsValueKind(NextToken(text, at).0.kind)
    ensures r.Done? ==> at < r.pos <= |text|
    ensures r.Done? ==> |r.children| == |acc| + 1 && Extends(acc, r.children)
    ensures r.Done? ==> r.children[|acc|].key == key && ShapeFits(r.children[|acc|])
    // a nested container is already in the parent when its parse fails
    ensures r.Exit? ==> |r.partial| == |acc| + 1 && Extends(acc, r.partial)
    ensures r.Exit? ==> r.partial[|acc|].key == key && IsContainer(r.partial[|acc|].kind)
    decreases |text| - at, 0
  {
    TokenTexts(text, at);
    var (t, p) := NextToken(text, at);
    match t.kind
    case STRING => Done(acc + [Create(String, key, Some(Lexeme(text, t)))], p)
    case NUMBER => Done(acc + [Create(Number, key, Some(Lexeme(text, t)))], p)
    case TRUE => Done(acc + [Create(True, key, Some("true"))], p)
    case FALSE => Done(acc + [Create(False, key, Some("false"))], p)
    case NULL => Done(acc + [Create(Null, key, Some("null"))], p)
    case LBRACE =>
      var child := Create(Object, key, None);
      (match ParseObject(text, p, child.children.items)
       case Exit(partial, got) => Exit(acc + [child.(children := List(partial))], got)
       case Done(items, q) => Done(acc + [child.(children := List(items))], q))
    case LBRACKET =>
      var child := Create(Array, key, None);
      (match ParseArray(text, p, child.children.items)
       case Exit(partial, got) => Exit(acc + [child.(children := List(partial))], got)
       case Done(items, q) => Done(acc + [child.(children := List(items))], q))
  }

  /** `parse_object`: one `"key": value` member, then whatever follows it. */
  function ParseObject(text: string, pos: nat, acc: seq<JsonValue>): (r: Parsed)
    requires pos <= |text|
    ensures r.Done? ==> pos < r.pos <= |text|
    // children are only appended, and every appended child is a keyed member
    ensures r.Done? ==> Extends(acc, r.children) && CanonicalFrom(r.children, |acc|, true)
    ensures r.Exit? ==> Extends(acc, r.partial)
    decreases |text| - pos, 1
  {
    TokenTexts(text, pos);
    var (k, p1) := NextToken(text, pos);
    match AssertToken(k, STRING)
    case Fail(got) => Exit(acc, got)
    case Pass =>
      var key := Lexeme(text, k);
      var (c, p2) := NextToken(text, p1);
      match AssertToken(c, COLON)
      case Fail(got) => Exit(acc, got)
      case Pass =>
        var (v, p3) := NextToken(text, p2);
        if IsValueKind(v.kind) then
          match ParseValue(text, p2, Some(key), acc)
          case Exit(partial, got) => Exit(partial, got)
          case Done(cs, p4) => AfterMember(text, p4, cs)
        else
          // any other token is consumed and adds nothing
          AfterMember(text, p3, acc)
  }

  /** The tail of `parse_object`: one more token is consumed; a comma starts
      another member of the same parent, anything else ends the object. */
  function AfterMember(text: string, pos: nat, acc: seq<JsonValue>): (r: Parsed)
    requires pos <= |text|
    ensures r.Done? ==> pos <= r.pos <= |text|
    ensures r.Done? ==> Extends(acc, r.children) && CanonicalFrom(r.children, |acc|, true)
    ensures r.Exit? ==> Extends(acc, r.partial)
    decreases |text| - pos, 1
  {
    var (t, p) := NextToken(text, pos);
    if t.kind == COMMA then ParseObject(text, p, acc) else Done(acc, p)
  }

  /** `parse_array`: read until a closing bracket; commas are skipped
      wherever they occur, and a closing brace, a colon or the end of the
      input ends the run. */
  function ParseArray(text: string, pos: nat, acc: seq<JsonValue>): (r: Parsed)
    requires pos <= |text|
    ensures r.Done? ==> pos < r.pos <= |text|
    // children are only appended, and every appended child is a keyless element
    ensures r.Done? ==> Extends(acc, r.children) && CanonicalFrom(r.children, |acc|, false)
    ensures r.Exit? ==> Extends(acc, r.partial)
    decreases |text| - pos, 1
  {
    var (t, p) := NextToken(text, pos);
    if t.kind == RBRACKET then
      Done(acc, p)
    else if t.kind == COMMA then
      ParseArray(text, p, acc)
    else if IsValueKind(t.kind) then
      match ParseValue(text, pos, None, acc)
      case Exit(partial, got) => Exit(partial, got)
      case Done(cs, q) => ParseArray(text, q, cs)
    else
      Exit(acc, t)
  }

  /** Outcome of a run: the finished root, or the root as it stood when the
      run exited. */
  datatype Document =
    | Parsed(root: JsonValue)
    | Failed(partial: JsonValue, got: Token)

  /** The driver of `main`: create an Object root, discard one token
      whatever its kind, and parse the members into the root. */
  function Parse(text: string): (d: Document)
    ensures d.Parsed? ==> d.root.kind == Object && Canonical(d.root, false)
    ensures d.Failed? ==> d.partial.kind == Object && d.partial.key.None? && d.partial.children.List?
  {
    var root := Create(Object, None, None);
    var (_, p) := NextToken(text, 0);
    match ParseObject(text, p, root.children.items)
    case Done(cs, _) => Parsed(root.(children := List(cs)))
    case Exit(partial, got) => Failed(root.(children := List(partial)), got)
  }
}
