/** What the type tags and the renderings of object/object.go promise:
    the tag identifies the variant, each rendering has its fixed frame,
    and the parts of a rendering can be found again in it. */
module ObjectProperties {
  import opened Seqs
  import opened Strings
  import opened Object

  datatype Option<T> = None | Some(value: T)

  // ---------------------------------------------------------------- Type()

  /** a and b are built by the same constructor: an independent statement
      of "same variant" that does not go through the tags. */
  predicate SameVariant(a: Object, b: Object)
  {
    || (a.Number? && b.Number?)
    || (a.Boolean? && b.Boolean?)
    || (a.String? && b.String?)
    || (a.Null? && b.Null?)
    || (a.Array? && b.Array?)
    || (a.Hash? && b.Hash?)
    || (a.Function? && b.Function?)
    || (a.ReturnValue? && b.ReturnValue?)
    || (a.Error? && b.Error?)
  }

  /** Two values report the same tag exactly when they are the same
      variant: the tag identifies the variant. */
  lemma TypeIdentifiesVariant(a: Object, b: Object)
    ensures Type(a) == Type(b) <==> SameVariant(a, b)
  {
  }

  /** The nine tags are pairwise distinct, and every value reports one of
      them. */
  lemma TypeTagsDistinct(o: Object)
    ensures |AllTypes| == 9
    ensures forall i, j | 0 <= i < j < |AllTypes| :: AllTypes[i] != AllTypes[j]
    ensures Type(o) in AllTypes
  {
  }

  /** A Number reports "INTEGER" although it holds a float64, which is the
      tag an evaluator's "type mismatch" message shows for it. */
  lemma NumberReportsInteger(v: Float64, b: bool)
    ensures Type(Number(v)) == "INTEGER"
    ensures "type mismatch: " + Type(Number(v)) + " + " + Type(Boolean(b)) == "type mismatch: INTEGER + BOOLEAN"
  {
  }

  // ----------------------------------------------------- Error.Inspect()

  const ErrorPrefix: string := "ERROR: "

  /** Reads the message back out of an Error's rendering. */
  function ErrorMessageOf(s: string): Option<string>
  {
    if |s| >= |ErrorPrefix| && s[..|ErrorPrefix|] == ErrorPrefix then Some(s[|ErrorPrefix|..]) else None
  }

  /** An Error renders as "ERROR: " followed by its message, and only
      then: a text reads back as message m exactly when it is the rendering
      of Error(m). */
  lemma ErrorRoundTrip(s: string, m: string, p: Printer)
    requires p.Valid()
    ensures ErrorPrefix <= Inspect(Error(m), p)
    ensures ErrorMessageOf(Inspect(Error(m), p)) == Some(m)
    ensures ErrorMessageOf(s) == Some(m) <==> Inspect(Error(m), p) == s
  {
  }

  // ----------------------------------------------- ReturnValue.Inspect()

  /** v inside n ReturnValue wrappers. */
  function Wrapped(v: Object, n: nat): Object
  {
    if n == 0 then v else ReturnValue(Wrapped(v, n - 1))
  }

  /** However many ReturnValue wrappers surround v, the whole renders as v
      does, while its tag is RETURN_VALUE as soon as there is one. */
  lemma {:induction false} ReturnValueTransparent(v: Object, n: nat, p: Printer)
    requires p.Valid()
    ensures Inspect(Wrapped(v, n), p) == Inspect(v, p)
    ensures n > 0 ==> Type(Wrapped(v, n)) == ReturnValueObj
  {
    if n > 0 {
      ReturnValueTransparent(v, n - 1, p);
    }
  }

  // ----------------------------------------------------- Array.Inspect()

  /** An Array renders as "[" and "]" around its elements' renderings
      joined by ", "; no elements give "[]", one element e gives "[e]". */
  lemma ArrayFraming(elements: seq<Object>, e: Object, p: Printer)
    requires p.Valid()
    ensures var r := Inspect(Array(elements), p);
      && |r| >= 2 && r[0] == '[' && r[|r| - 1] == ']'
      && r[1..|r| - 1] == Join(ElementTexts(elements, p), ", ")
    ensures Inspect(Array([]), p) == "[]"
    ensures Inspect(Array([e]), p) == "[" + Inspect(e, p) + "]"
  {
  }

  /** Element k's rendering sits in the Array's rendering right after "["
      and the renderings of the k elements before it, each followed by
      ", "; when another element follows, ", " comes right after it. */
  lemma ArrayElementAt(elements: seq<Object>, k: nat, p: Printer)
    requires p.Valid() && k < |elements|
    ensures var r := Inspect(Array(elements), p);
      var t := Inspect(elements[k], p);
      var at := 1 + Offset(ElementTexts(elements, p), ", ", k);
      && at + |t| < |r|
      && r[at..at + |t|] == t
      && (k + 1 < |elements| ==> at + |t| + 2 < |r| && r[at + |t|..at + |t| + 2] == ", ")
  {
    var texts := ElementTexts(elements, p);
    var joined := Join(texts, ", ");
    var at := Offset(texts, ", ", k);
    var t := texts[k];
    assert Inspect(Array(elements), p) == "[" + joined + "]";
    JoinAt(texts, ", ", k);
    SliceInMiddle("[", joined, "]", at, at + |t|);
    if k + 1 < |elements| {
      JoinSeparatorAt(texts, ", ", k);
      SliceInMiddle("[", joined, "]", at + |t|, at + |t| + 2);
    }
  }

  /** Concatenating two non-empty arrays splices their renderings: the
      first without its "]", ", ", the second without its "[". */
  lemma ArrayConcat(a: seq<Object>, b: seq<Object>, p: Printer)
    requires p.Valid() && a != [] && b != []
    ensures var ra := Inspect(Array(a), p);
      var rb := Inspect(Array(b), p);
      Inspect(Array(a + b), p) == ra[..|ra| - 1] + ", " + rb[1..]
  {
    var ta, tb := ElementTexts(a, p), ElementTexts(b, p);
    assert ElementTexts(a + b, p) == ta + tb;
    JoinAppend(ta, tb, ", ");
    var ra := Inspect(Array(a), p);
    var rb := Inspect(Array(b), p);
    assert ra[..|ra| - 1] == "[" + Join(ta, ", ");
    assert rb[1..] == Join(tb, ", ") + "]";
  }

  // ------------------------------------------------------ Hash.Inspect()

  /** The entries of Hash(pairs) in the order the printer's range loop
      visits them. */
  function RenderedEntries(pairs: map<Address, HashPair>, p: Printer): seq<string>
    requires p.Valid()
  {
    HashEntries(Hash(pairs), p.iterationOrder(pairs.Keys), p)
  }

  /** A Hash renders as "{" and "}" around its "key:value" entries joined
      by ", "; an empty Hash gives "{}". */
  lemma HashFraming(pairs: map<Address, HashPair>, p: Printer)
    requires p.Valid()
    ensures var r := Inspect(Hash(pairs), p);
      && |r| >= 2 && r[0] == '{' && r[|r| - 1] == '}'
      && r[1..|r| - 1] == Join(RenderedEntries(pairs, p), ", ")
    ensures Inspect(Hash(map[]), p) == "{}"
  {
  }

  /** Dropping the first key of an enumeration enumerates the other
      keys. */
  lemma EnumerationTail(order: seq<Address>, keys: set<Address>)
    requires Enumerates(order, keys) && order != []
    ensures order[0] in keys && order[0] !in order[1..]
    ensures Enumerates(order[1..], keys - {order[0]})
  {
    forall k | k in keys - {order[0]} ensures k in order[1..] {
      var i :| 0 <= i < |order| && order[i] == k;
      assert i != 0;
      assert order[1..][i - 1] == k;
    }
  }

  /** An enumeration of a set is as long as the set is large. */
  lemma {:induction false} EnumerationLength(order: seq<Address>, keys: set<Address>)
    requires Enumerates(order, keys)
    ensures |order| == |keys|
  {
    if order == [] {
      assert keys == {};
    } else {
      EnumerationTail(order, keys);
      EnumerationLength(order[1..], keys - {order[0]});
    }
  }

  /** In an enumeration each key occurs once and nothing else occurs. */
  lemma {:induction false} EnumerationMultiset(order: seq<Address>, keys: set<Address>)
    requires Enumerates(order, keys)
    ensures forall a :: multiset(order)[a] == if a in keys then 1 else 0
  {
    if order == [] {
      assert keys == {};
    } else {
      var x := order[0];
      EnumerationTail(order, keys);
      EnumerationMultiset(order[1..], keys - {x});
      assert order == [x] + order[1..];
      assert multiset(order) == multiset{x} + multiset(order[1..]);
    }
  }

  /** The keys among keys whose "key:value" entry in Hash h is the text e. */
  function KeysWithText(h: Object, keys: set<Address>, p: Printer, e: string): set<Address>
    requires p.Valid() && h.Hash? && keys <= h.pairs.Keys
  {
    set a | a in keys && EntryText(h, a, p) == e
  }

  /** Taking key x out of keys takes it out of the keys whose entry is e,
      if its entry is e. */
  lemma KeysWithTextRemove(h: Object, keys: set<Address>, x: Address, p: Printer, e: string)
    requires p.Valid() && h.Hash? && keys <= h.pairs.Keys && x in keys
    ensures |KeysWithText(h, keys, p, e)| ==
      |KeysWithText(h, keys - {x}, p, e)| + if EntryText(h, x, p) == e then 1 else 0
  {
    if EntryText(h, x, p) == e {
      assert KeysWithText(h, keys, p, e) == KeysWithText(h, keys - {x}, p, e) + {x};
    } else {
      assert KeysWithText(h, keys, p, e) == KeysWithText(h, keys - {x}, p, e);
    }
  }

  /** The entries visited in order are the first key's entry followed by
      the entries of the rest of the order. */
  lemma HashEntriesCons(h: Object, order: seq<Address>, p: Printer, e: string)
    requires p.Valid() && h.Hash? && order != []
    requires forall i | 0 <= i < |order| :: order[i] in h.pairs
    ensures multiset(HashEntries(h, order, p))[e] ==
      multiset(HashEntries(h, order[1..], p))[e] + if EntryText(h, order[0], p) == e then 1 else 0
  {
    assert HashEntries(h, order, p) == [EntryText(h, order[0], p)] + HashEntries(h, order[1..], p);
  }

  /** Visiting the keys in an enumeration gives each text e as many times
      as there are keys whose entry is e. */
  lemma {:induction false} EntryTextCount(h: Object, order: seq<Address>, keys: set<Address>, p: Printer, e: string)
    requires p.Valid() && h.Hash? && keys <= h.pairs.Keys
    requires Enumerates(order, keys)
    ensures multiset(HashEntries(h, order, p))[e] == |KeysWithText(h, keys, p, e)|
  {
    if order == [] {
      assert keys == {};
      assert KeysWithText(h, keys, p, e) == {};
    } else {
      EnumerationTail(order, keys);
      EntryTextCount(h, order[1..], keys - {order[0]}, p, e);
      HashEntriesCons(h, order, p, e);
      KeysWithTextRemove(h, keys, order[0], p, e);
    }
  }

  /** Visiting the same keys in another order gives the same entries,
      possibly in another order. */
  lemma HashEntriesPermutation(h: Object, o1: seq<Address>, o2: seq<Address>, p: Printer)
    requires p.Valid() && h.Hash?
    requires forall i | 0 <= i < |o1| :: o1[i] in h.pairs
    requires forall i | 0 <= i < |o2| :: o2[i] in h.pairs
    requires multiset(o1) == multiset(o2)
    ensures multiset(HashEntries(h, o1, p)) == multiset(HashEntries(h, o2, p))
  {
    var entry := (a: Address) => if a in h.pairs then EntryText(h, a, p) else "";
    assert HashEntries(h, o1, p) == MapSeq(entry, o1);
    assert HashEntries(h, o2, p) == MapSeq(entry, o2);
    MapPermutation(entry, o1, o2);
  }

  /** Whatever order the range loop takes, a Hash renders the same
      multiset of entries, one per key. */
  lemma HashEntriesOrderFree(pairs: map<Address, HashPair>, o1: seq<Address>, o2: seq<Address>, p: Printer)
    requires p.Valid()
    requires Enumerates(o1, pairs.Keys) && Enumerates(o2, pairs.Keys)
    ensures |HashEntries(Hash(pairs), o1, p)| == |pairs|
    ensures multiset(HashEntries(Hash(pairs), o1, p)) == multiset(HashEntries(Hash(pairs), o2, p))
  {
    EnumerationLength(o1, pairs.Keys);
    EnumerationMultiset(o1, pairs.Keys);
    EnumerationMultiset(o2, pairs.Keys);
    assert multiset(o1) == multiset(o2);
    HashEntriesPermutation(Hash(pairs), o1, o2, p);
  }

  /** A Hash's rendering holds one entry per key, the entry of every key,
      and no entry that is not some key's "key:value"; each text occurs
      as often as there are keys whose entry it is. */
  lemma HashEntriesComplete(pairs: map<Address, HashPair>, p: Printer)
    requires p.Valid()
    ensures |RenderedEntries(pairs, p)| == |pairs|
    ensures forall a | a in pairs :: EntryText(Hash(pairs), a, p) in RenderedEntries(pairs, p)
    ensures forall e | e in RenderedEntries(pairs, p) ::
      exists a | a in pairs :: e == EntryText(Hash(pairs), a, p)
    ensures forall e :: multiset(RenderedEntries(pairs, p))[e] == |KeysWithText(Hash(pairs), pairs.Keys, p, e)|
  {
    var order := p.iterationOrder(pairs.Keys);
    var entries := RenderedEntries(pairs, p);
    assert Enumerates(order, pairs.Keys);
    EnumerationLength(order, pairs.Keys);
    forall a | a in pairs ensures EntryText(Hash(pairs), a, p) in entries {
      var i :| 0 <= i < |order| && order[i] == a;
      assert entries[i] == EntryText(Hash(pairs), a, p);
    }
    forall e | e in entries ensures exists a | a in pairs :: e == EntryText(Hash(pairs), a, p) {
      var i :| 0 <= i < |entries| && entries[i] == e;
      assert order[i] in pairs;
    }
    forall e ensures multiset(entries)[e] == |KeysWithText(Hash(pairs), pairs.Keys, p, e)| {
      EntryTextCount(Hash(pairs), order, pairs.Keys, p, e);
    }
  }

  /** A Hash of one entry renders as "{key:value}", whatever the order. */
  lemma HashSingleEntry(a: Address, key: Object, value: Object, p: Printer)
    requires p.Valid()
    ensures Inspect(Hash(map[a := HashPair(key, value)]), p) == "{" + Inspect(key, p) + ":" + Inspect(value, p) + "}"
  {
    var pairs := map[a := HashPair(key, value)];
    var order := p.iterationOrder(pairs.Keys);
    assert Enumerates(order, pairs.Keys);
    EnumerationLength(order, pairs.Keys);
    assert order[0] in pairs;
    assert order == [a];
    assert HashEntries(Hash(pairs), order, p) == [EntryText(Hash(pairs), a, p)];
  }

  // ------------------------------------------------- Function.Inspect()

  /** A Function renders as "fn(", its parameters joined by ", ", ") " and
      its body; the captured Environment does not show. */
  lemma FunctionRendering(parameters: seq<string>, body: string, env: Address, other: Address, p: Printer)
    requires p.Valid()
    ensures var r := Inspect(Function(parameters, body, env), p);
      var params := Join(parameters, ", ");
      && |r| == 3 + |params| + 2 + |body|
      && r[..3] == "fn("
      && r[3..3 + |params|] == params
      && r[3 + |params|..5 + |params|] == ") "
      && r[5 + |params|..] == body
    ensures Inspect(Function(parameters, body, env), p) == Inspect(Function(parameters, body, other), p)
  {
  }

  /** Parameter k's text sits in the rendering after "fn(" and the k
      parameters before it, each followed by ", ". */
  lemma FunctionParameterAt(parameters: seq<string>, body: string, env: Address, k: nat, p: Printer)
    requires p.Valid() && k < |parameters|
    ensures var r := Inspect(Function(parameters, body, env), p);
      var at := 3 + Offset(parameters, ", ", k);
      && at + |parameters[k]| <= |r|
      && r[at..at + |parameters[k]|] == parameters[k]
  {
    var joined := Join(parameters, ", ");
    JoinAt(parameters, ", ", k);
    var r := Inspect(Function(parameters, body, env), p);
    assert r == "fn(" + joined + (") " + body);
    var at := Offset(parameters, ", ", k);
    SliceInMiddle("fn(", joined, ") " + body, at, at + |parameters[k]|);
  }

  /** A Function whose parameter and body texts are those of the literal
      fn(x){ x + 2 } renders as "fn(x) (x + 2)". */
  lemma FunctionLiteralExample(env: Address, p: Printer)
    requires p.Valid()
    ensures Inspect(Function(["x"], "(x + 2)", env), p) == "fn(x) (x + 2)"
  {
  }

  // ---------------------------------------------------- scalar values

  /** Reads a Boolean back out of its rendering. */
  function ParseBoolean(s: string): Option<bool>
  {
    if s == "true" then Some(true) else if s == "false" then Some(false) else None
  }

  /** A Boolean renders as "true" or "false" and reads back as itself;
      Null renders as "null"; a String renders as its raw text. */
  lemma ScalarRenderings(b: bool, s: string, p: Printer)
    requires p.Valid()
    ensures ParseBoolean(Inspect(Boolean(b), p)) == Some(b)
    ensures Inspect(Null, p) == "null"
    ensures Inspect(String(s), p) == s
  {
  }

  /** Because a String renders without quotes, the rendering alone does
      not tell the variant: a String can render exactly as a Boolean, as
      Null or as an Error does, while the tags still differ. */
  lemma RenderingDoesNotIdentifyVariant(p: Printer)
    requires p.Valid()
    ensures Inspect(String("true"), p) == Inspect(Boolean(true), p) && Type(String("true")) != Type(Boolean(true))
    ensures Inspect(String("null"), p) == Inspect(Null, p) && Type(String("null")) != Type(Null)
    ensures Inspect(String("ERROR: x"), p) == Inspect(Error("x"), p) && Type(String("ERROR: x")) != Type(Error("x"))
  {
  }

  // ------------------------------------------- iteration order and Inspect

  /** o holds no Hash anywhere inside it. */
  predicate HashFree(o: Object)
  {
    match o
    case Hash(_) => false
    case Array(elements) => forall i | 0 <= i < |elements| :: HashFree(elements[i])
    case ReturnValue(v) => HashFree(v)
    case _ => true
  }

  /** Map iteration order is the only freedom a rendering has: a value with
      no Hash inside renders the same under any two printers that format
      numbers alike. */
  lemma {:induction false} HashFreeRenderingIsFixed(o: Object, p1: Printer, p2: Printer)
    requires p1.Valid() && p2.Valid() && p1.numberText == p2.numberText
    requires HashFree(o)
    ensures Inspect(o, p1) == Inspect(o, p2)
    decreases o
  {
    match o
    case Array(elements) =>
      forall i | 0 <= i < |elements| ensures Inspect(elements[i], p1) == Inspect(elements[i], p2) {
        HashFreeRenderingIsFixed(elements[i], p1, p2);
      }
      assert ElementTexts(elements, p1) == ElementTexts(elements, p2);
    case ReturnValue(v) =>
      HashFreeRenderingIsFixed(v, p1, p2);
    case _ =>
  }

  /** When each entry has the same length under both printers, the whole
      Hash does, whichever order each printer visits the keys in. */
  lemma HashLengthOrderFree(pairs: map<Address, HashPair>, p1: Printer, p2: Printer)
    requires p1.Valid() && p2.Valid()
    requires forall a | a in pairs :: |EntryText(Hash(pairs), a, p1)| == |EntryText(Hash(pairs), a, p2)|
    ensures |Inspect(Hash(pairs), p1)| == |Inspect(Hash(pairs), p2)|
  {
    var h := Hash(pairs);
    var o1, o2 := p1.iterationOrder(pairs.Keys), p2.iterationOrder(pairs.Keys);
    assert Enumerates(o1, pairs.Keys) && Enumerates(o2, pairs.Keys);
    var e1, mixed, e2 := HashEntries(h, o1, p1), HashEntries(h, o1, p2), HashEntries(h, o2, p2);
    assert forall i | 0 <= i < |o1| :: e1[i] == EntryText(h, o1[i], p1) && mixed[i] == EntryText(h, o1[i], p2);
    JoinLengthPointwise(e1, mixed, ", ");
    HashEntriesOrderFree(pairs, o1, o2, p2);
    JoinLengthPermutation(mixed, e2, ", ");
  }

  /** The length of a rendering does not depend on the order in which any
      Hash inside it is visited. */
  lemma {:induction false} RenderingLengthIsOrderFree(o: Object, p1: Printer, p2: Printer)
    requires p1.Valid() && p2.Valid() && p1.numberText == p2.numberText
    ensures |Inspect(o, p1)| == |Inspect(o, p2)|
    decreases o
  {
    match o
    case Array(elements) =>
      var t1, t2 := ElementTexts(elements, p1), ElementTexts(elements, p2);
      forall i | 0 <= i < |elements| ensures |t1[i]| == |t2[i]| {
        RenderingLengthIsOrderFree(elements[i], p1, p2);
      }
      JoinLengthPointwise(t1, t2, ", ");
    case Hash(pairs) =>
      forall a | a in pairs
        ensures |EntryText(Hash(pairs), a, p1)| == |EntryText(Hash(pairs), a, p2)|
      {
        RenderingLengthIsOrderFree(pairs[a].key, p1, p2);
        RenderingLengthIsOrderFree(pairs[a].value, p1, p2);
      }
      HashLengthOrderFree(pairs, p1, p2);
    case ReturnValue(v) =>
      RenderingLengthIsOrderFree(v, p1, p2);
    case _ =>
  }
}
