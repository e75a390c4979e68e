/** `print_json` of src/parser.c: the tree rendered as one line of text.
    The C function writes to standard output; here the text is returned. */
module Printer {
  import opened Values

  /** The rendering of one node. */
  function Render(v: JsonValue): (r: string)
    requires Traversable(v)
    decreases v
  {
    match v.kind
    case Object => "{" + RenderList(v.children.items, true) + "}"
    case Array => "[" + RenderList(v.children.items, false) + "]"
    case String => "\"" + (if v.value.Some? then v.value.value else "") + "\""
    case Number => if v.value.Some? then v.value.value else "0"
    case True => "true"
    case False => "false"
    case Null => "null"
  }

  /** The leaves: a string is quoted with no escaping (a missing text
      prints as empty), a number is its text verbatim (or `0` when it has
      none), and the literals print as their words whatever the node
      holds. */
  lemma RenderLeaf(v: JsonValue)
    requires Traversable(v)
    ensures v.kind == String && v.value.Some? ==> Render(v) == "\"" + v.value.value + "\""
    ensures v.kind == String && v.value.None? ==> Render(v) == "\"\""
    ensures v.kind == Number && v.value.Some? ==> Render(v) == v.value.value
    ensures v.kind == Number && v.value.None? ==> Render(v) == "0"
    ensures v.kind == True ==> Render(v) == "true"
    ensures v.kind == False ==> Render(v) == "false"
    ensures v.kind == Null ==> Render(v) == "null"
  {
  }

  /** The containers: the children between brackets, each object member
      after its key prefix, with `, ` between neighbours. */
  lemma RenderContainer(v: JsonValue)
    requires Traversable(v) && IsContainer(v.kind)
    ensures var body := RenderList(v.children.items, v.kind == Object);
            Render(v) == (if v.kind == Object then "{" + body + "}" else "[" + body + "]")
    ensures |Render(v)| >= 2
  {
  }

  /** `"key": ` in front of an object member that has a key; nothing for
      array elements, whose keys are never printed. */
  function KeyPrefix(v: JsonValue, withKeys: bool): (r: string) {
    if withKeys && v.key.Some? then "\"" + v.key.value + "\": " else ""
  }

  /** The children, each after its key prefix, separated by `, `. */
  function RenderList(items: seq<JsonValue>, withKeys: bool): (r: string)
    requires AllTraversable(items)
    decreases items
  {
    if |items| == 0 then ""
    else
      KeyPrefix(items[0], withKeys) + Render(items[0])
      + (if |items| == 1 then "" else ", " + RenderList(items[1..], withKeys))
  }

  /** Printing two runs of children one after the other is printing each
      run and joining them with `, `: the separator goes between every two
      neighbours and nowhere else. */
  lemma {:induction false} RenderListAppend(a: seq<JsonValue>, b: seq<JsonValue>, withKeys: bool)
    requires AllTraversable(a) && AllTraversable(b) && |a| > 0 && |b| > 0
    ensures AllTraversable(a + b)
    ensures RenderList(a + b, withKeys) == RenderList(a, withKeys) + ", " + RenderList(b, withKeys)
    decreases |a|
  {
    var ab := a + b;
    assert ab[0] == a[0];
    if |a| == 1 {
      assert ab[1..] == b;
    } else {
      assert ab[1..] == a[1..] + b;
      RenderListAppend(a[1..], b, withKeys);
      var head := KeyPrefix(a[0], withKeys) + Render(a[0]);
      assert RenderList(a, withKeys) == head + ", " + RenderList(a[1..], withKeys);
      assert RenderList(ab, withKeys) == head + ", " + RenderList(a[1..] + b, withKeys);
    }
  }
}
