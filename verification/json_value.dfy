/** The value tree of src/parser.h and `json_value_create` of src/parser.c.

    A `JsonValue` mirrors the C struct field by field: a type tag, an
    optional key, an optional text and an optional children list.  The
    children list is the abstract contents of the C linked list (see module
    LinkedList); `NoList` is a NULL `children` pointer. */
module Values {
  import opened Base
  import opened Lexer

  /** JsonType of src/parser.h. */
  datatype JsonType = Null | True | False | Number | String | Object | Array

  /** The `children` field: NULL, or a list of owned children in order. */
  datatype Children = NoList | List(items: seq<JsonValue>)

  datatype JsonValue = JsonValue(kind: JsonType, key: Option<string>, value: Option<string>, children: Children)

  /** The tags whose node keeps a copy of its literal text. */
  predicate CarriesText(kind: JsonType) {
    kind == String || kind == Number
  }

  /** The tags whose node owns a children list. */
  predicate IsContainer(kind: JsonType) {
    kind == Object || kind == Array
  }

  /** `json_value_create`: the key is kept when given, the text only for
      strings and numbers (the literal text passed for true, false and null
      is dropped), and containers start with an empty children list. */
  function Create(kind: JsonType, key: Option<string>, value: Option<string>): (v: JsonValue)
    ensures v.kind == kind && v.key == key
    ensures v.value.Some? <==> CarriesText(kind) && value.Some?
    ensures v.value.Some? ==> v.value == value
    ensures v.children.List? <==> IsContainer(kind)
    ensures v.children.List? ==> v.children.items == []
    ensures Traversable(v)
  {
    JsonValue(kind, key,
              if CarriesText(kind) then value else None,
              if IsContainer(kind) then List([]) else NoList)
  }

  /** Every container in the tree has a children list, so that a walk over
      the tree never meets a NULL list. */
  predicate Traversable(v: JsonValue)
    decreases v, 1
  {
    && (IsContainer(v.kind) ==> v.children.List?)
    && (v.children.List? ==> AllTraversable(v.children.items))
  }

  /** Every node of a children list can be walked. */
  predicate AllTraversable(items: seq<JsonValue>)
    decreases items, 0
  {
    |items| == 0 || (Traversable(items[0]) && AllTraversable(items[1..]))
  }

  /** The key a member has: a quote-free key for an object member, none for
      an array element or the root. */
  predicate KeyFits(key: Option<string>, keyed: bool) {
    if keyed then key.Some? && QuoteFree(key.value) else key.None?
  }

  /** The nodes the parser builds: each node carries exactly the fields
      `json_value_create` fills for its tag, string texts are quote-free,
      number texts are number lexemes, object members are keyed and array
      elements are not. */
  predicate Canonical(v: JsonValue, keyed: bool)
    decreases v, 1
  {
    KeyFits(v.key, keyed) && ShapeFits(v)
  }

  /** The part of `Canonical` that does not depend on the node's own key. */
  predicate ShapeFits(v: JsonValue)
    decreases v, 0
  {
    match v.kind
    case String => v.value.Some? && QuoteFree(v.value.value) && v.children.NoList?
    case Number => v.value.Some? && NumberText(v.value.value) && v.children.NoList?
    case Object =>
      && v.value.None? && v.children.List?
      && forall i :: 0 <= i < |v.children.items| ==> Canonical(v.children.items[i], true)
    case Array =>
      && v.value.None? && v.children.List?
      && forall i :: 0 <= i < |v.children.items| ==> Canonical(v.children.items[i], false)
    case _ => v.value.None? && v.children.NoList?
  }

  /** No object in the tree is empty. */
  predicate NoEmptyObject(v: JsonValue)
    decreases v
  {
    && (v.kind == Object && v.children.List? ==> |v.children.items| > 0)
    && (v.children.List? ==>
          forall i :: 0 <= i < |v.children.items| ==> NoEmptyObject(v.children.items[i]))
  }

  /** Trees the parser builds can be walked. */
  lemma {:induction false} CanonicalTraversable(v: JsonValue, keyed: bool)
    requires Canonical(v, keyed)
    ensures Traversable(v)
    decreases v, 1
  {
    if v.children.List? {
      CanonicalAllTraversable(v.children.items, v.kind == Object);
    }
  }

  /** Lists of nodes the parser builds can be walked. */
  lemma {:induction false} CanonicalAllTraversable(items: seq<JsonValue>, keyed: bool)
    requires forall i :: 0 <= i < |items| ==> Canonical(items[i], keyed)
    ensures AllTraversable(items)
    decreases items, 0
  {
    if |items| > 0 {
      CanonicalTraversable(items[0], keyed);
      CanonicalAllTraversable(items[1..], keyed);
    }
  }
}
