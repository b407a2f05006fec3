/** The interpreter's runtime values (object/object.go): the closed set of
    variants, the type tag each one reports and the text each one renders
    as. */
module Object {
  import opened Strings

  /** The tag a value's Type() reports. */
  type ObjectType = string

  const IntegerObj: ObjectType := "INTEGER"
  const BooleanObj: ObjectType := "BOOLEAN"
  const NullObj: ObjectType := "NULL"
  const ReturnValueObj: ObjectType := "RETURN_VALUE"
  const ErrorObj: ObjectType := "ERROR"
  const FunctionObj: ObjectType := "FUNCTION"
  const ArrayObj: ObjectType := "ARRAY_OBJ"
  const HashObj: ObjectType := "HASH_OBJ"
  const StringObj: ObjectType := "STRING_OBJ"

  /** The nine tags, in the order they are declared. */
  const AllTypes: seq<ObjectType> :=
    [IntegerObj, BooleanObj, NullObj, ReturnValueObj, ErrorObj,
     FunctionObj, ArrayObj, HashObj, StringObj]

  /** A float64, kept as its IEEE 754 bit pattern; no arithmetic on it is
      modelled. */
  type Float64 = bv64

  /** The identity (address) of a heap object: a Hash's key object, or the
      Environment a Function captured. */
  type Address = nat

  /** One entry of a Hash: the key object and the value stored under it. */
  datatype HashPair = HashPair(key: Object, value: Object)

  datatype Object =
    | Number(number: Float64)
    | Boolean(truth: bool)
    | String(text: string)
    | Null
    | Array(elements: seq<Object>)
      /** Entries keyed on the identity of the key object, as a Go map keyed
          on interface values holding pointers is: two String keys with the
          same text are two entries. */
    | Hash(pairs: map<Address, HashPair>)
      /** The parameters' and the body's source texts, and the captured
          Environment, which is known here only by its address. */
    | Function(parameters: seq<string>, body: string, env: Address)
    | ReturnValue(wrapped: Object)
    | Error(message: string)

  /** What a rendering needs from outside this file: the text Go's "%v"
      gives a float64, and the order in which a range loop visits the keys
      of a Go map (the runtime picks it at random; here it is a parameter). */
  datatype Printer = Printer(numberText: Float64 -> string, iterationOrder: set<Address> -> seq<Address>)
  {
    /** A range loop visits every key of the map exactly once. */
    ghost predicate Valid()
    {
      forall keys: set<Address> :: Enumerates(iterationOrder(keys), keys)
    }
  }

  /** order lists every key of keys exactly once and nothing else. */
  predicate Enumerates(order: seq<Address>, keys: set<Address>)
  {
    && (forall i | 0 <= i < |order| :: order[i] in keys)
    && (forall k | k in keys :: k in order)
    && (forall i, j | 0 <= i < j < |order| :: order[i] != order[j])
  }

  /** Object.Type(): one of the nine tags. */
  function Type(o: Object): (t: ObjectType)
    ensures t in AllTypes
  {
    match o
    case Number(_) => IntegerObj
    case Boolean(_) => BooleanObj
    case String(_) => StringObj
    case Null => NullObj
    case Array(_) => ArrayObj
    case Hash(_) => HashObj
    case Function(_, _, _) => FunctionObj
    case ReturnValue(_) => ReturnValueObj
    case Error(_) => ErrorObj
  }

  /** Object.Inspect(): the text a value renders as. */
  function Inspect(o: Object, p: Printer): string
    requires p.Valid()
    decreases o, 2
  {
    match o
    case Error(message) => "ERROR: " + message
    case Hash(pairs) => "{" + Join(HashEntries(o, p.iterationOrder(pairs.Keys), p), ", ") + "}"
    case Array(elements) => "[" + Join(ElementTexts(elements, p), ", ") + "]"
    case Number(v) => p.numberText(v)
    case String(s) => s
    case Boolean(b) => if b then "true" else "false"
    case Null => "null"
    case ReturnValue(v) => Inspect(v, p)
    case Function(parameters, body, _) => "fn" + "(" + Join(parameters, ", ") + ") " + body
  }

  /** The renderings of the elements of an Array, in element order. */
  function ElementTexts(elements: seq<Object>, p: Printer): seq<string>
    requires p.Valid()
    decreases elements, 1
  {
    seq(|elements|, i requires 0 <= i < |elements| => Inspect(elements[i], p))
  }

  /** The "key:value" entries of Hash h, visited in the given order. */
  function HashEntries(h: Object, order: seq<Address>, p: Printer): seq<string>
    requires p.Valid() && h.Hash?
    requires forall i | 0 <= i < |order| :: order[i] in h.pairs
    decreases h, 1
  {
    seq(|order|, i requires 0 <= i < |order| => EntryText(h, order[i], p))
  }

  /** The "key:value" entry that Hash h holds under the key at address a. */
  function EntryText(h: Object, a: Address, p: Printer): string
    requires p.Valid() && h.Hash? && a in h.pairs
    decreases h, 0
  {
    Inspect(h.pairs[a].key, p) + ":" + Inspect(h.pairs[a].value, p)
  }

  /** Array.Inspect as a loop: append each element's rendering to a list,
      then write "[", the list joined by ", ", and "]" to a buffer. */
  method ArrayInspect(elements: seq<Object>, p: Printer) returns (s: string)
    requires p.Valid()
    ensures s == Inspect(Array(elements), p)
  {
    var element: seq<string> := [];
    for i := 0 to |elements|
      invariant |element| == i
      invariant forall j | 0 <= j < i :: element[j] == Inspect(elements[j], p)
    {
      element := element + [Inspect(elements[i], p)];
    }
    assert element == ElementTexts(elements, p);
    var out := "";
    out := out + "[";
    out := out + Join(element, ", ");
    out := out + "]";
    s := out;
  }

  /** Hash.Inspect as a loop: visit the keys in the order the range loop
      takes, append "key:value" for each, then write "{", the list joined
      by ", ", and "}" to a buffer. */
  method HashInspect(pairs: map<Address, HashPair>, p: Printer) returns (s: string)
    requires p.Valid()
    ensures s == Inspect(Hash(pairs), p)
  {
    var order := p.iterationOrder(pairs.Keys);
    assert Enumerates(order, pairs.Keys);
    var element: seq<string> := [];
    for i := 0 to |order|
      invariant |element| == i
      invariant forall j | 0 <= j < i :: element[j] == EntryText(Hash(pairs), order[j], p)
    {
      var pair := pairs[order[i]];
      element := element + [Inspect(pair.key, p) + ":" + Inspect(pair.value, p)];
    }
    assert element == HashEntries(Hash(pairs), order, p);
    var out := "";
    out := out + "{";
    out := out + Join(element, ", ");
    out := out + "}";
    s := out;
  }

  /** Function.Inspect as a loop: collect the parameters' texts, then write
      "fn", "(", the texts joined by ", ", ") " and the body's text. */
  method FunctionInspect(parameters: seq<string>, body: string, env: Address, p: Printer) returns (s: string)
    requires p.Valid()
    ensures s == Inspect(Function(parameters, body, env), p)
  {
    var params: seq<string> := [];
    for i := 0 to |parameters|
      invariant params == parameters[..i]
    {
      params := params + [parameters[i]];
    }
    assert params == parameters;
    var out := "";
    out := out + "fn";
    out := out + "(";
    out := out + Join(params, ", ");
    out := out + ") ";
    out := out + body;
    s := out;
  }
}
