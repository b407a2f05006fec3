# Runtime value model of a tree-walking interpreter, in Dafny

This project models `object/object.go`, the runtime value model of a small
interpreter for a C-like scripting language. A value belongs to one of nine
closed variants: Number, Boolean, String, Null, Array, Hash, Function,
ReturnValue and Error. Every variant answers two questions. `Type()` gives a
fixed tag string, and `Inspect()` gives the text the value renders as.

Files:

- `object.dfy` (module `Object`) holds the data model, `Type`, `Inspect` and the
  three loops of the source.
  - The variants are one `datatype Object`.
  - The tags are the nine `ObjectType` constants.
  - `Type` is a total function to those tags.
  - `Inspect` is a structurally recursive renderer. Array recurses into its
    elements, Hash into its keys and values, and ReturnValue into the value it
    wraps.
  - `ArrayInspect`, `HashInspect` and `FunctionInspect` follow the source's loops.
    Each loop appends to an `element` or `params` list and then writes into a
    buffer. Each method is proved to return exactly what `Inspect` returns.
- `strings.dfy` (module `Strings`) models Go's `strings.Join`, which all three
  list renderings use. It also proves where each part and each separator sits
  in the joined text, and that reordering the parts keeps the length.
- `seqs.dfy` (module `Seqs`) holds generic sequence facts: removing one
  element from a permutation, and mapping a function over two permutations.
- `properties.dfy` (module `ObjectProperties`) holds the lemmas about tags and
  renderings.

Three things that `object.go` takes from outside the file are represented as
follows:

- **Number text.** A Number holds a float64, kept as its 64-bit pattern
  (`Float64 = bv64`). Its text comes from `Printer.numberText`, which stands for
  Go's `%v` formatting.
- **Map iteration order.** A Go `range` over a map visits the keys in an order
  the runtime picks at random. In the model that order is `Printer.iterationOrder`.
  `Printer.Valid()` says only that the order visits every key exactly once.
  Every lemma holds for every valid printer, so nothing depends on one
  particular order.
- **Hash keys.** A Hash is `map<Address, HashPair>`. Any `Object` may be a
  key. Keys are compared by the identity of the key object, because
  `map[Object]Object` keys on interface values that hold pointers. Two String
  keys with the same text are two entries.

A Function holds its parameters' texts, its body's text and the address of
the Environment it captured. The texts are what `ast.Identifier.String()` and
`ast.BlockStatement.String()` return. The ast package and the Environment are
not part of this model.

## Model

| member | source | states |
|---|---|---|
| `Object.Type` | object/object.go:28-132 | each variant's `Type()`; the result is always one of the nine tags |
| `Object.Inspect` | object/object.go:29-149 | each variant's `Inspect()`, defined once for all nine variants; what it promises is stated by the lemmas below |
| `Strings.Join` | object/object.go:54 | Go's `strings.Join`, which the Hash, Array and Function renderings call (object.go:54, 78, 144); where each part and separator sits is stated by `JoinAt` and `JoinSeparatorAt` |
| `ObjectProperties.TypeTagsDistinct` | object/object.go:12-22 | there are nine tags, they are pairwise distinct, and every value's `Type()` is one of them |
| `ObjectProperties.TypeIdentifiesVariant` | object/object.go:12-22 | two values report the same tag if and only if they are the same variant, so the tag identifies the variant (checked against an independent same-constructor predicate) |
| `ObjectProperties.NumberReportsInteger` | object/object.go:97 | a Number reports "INTEGER" although it holds a float64; a message built from a Number's and a Boolean's tags reads "type mismatch: INTEGER + BOOLEAN" |
| `ObjectProperties.ErrorRoundTrip` | object/object.go:29 | an Error's rendering starts with "ERROR: "; removing the prefix gives back the message; a text reads back as message m if and only if it is the rendering of Error(m) |
| `ObjectProperties.ReturnValueTransparent` | object/object.go:121-122 | any number of ReturnValue wrappers around v render exactly as v does, while the tag is RETURN_VALUE once there is at least one wrapper |
| `ObjectProperties.ArrayFraming` | object/object.go:77-79 | an Array's rendering is "[" and "]" around its elements' renderings joined by ", "; an empty array gives "[]"; a one-element array gives "[" + e + "]" |
| `ObjectProperties.ArrayElementAt` | object/object.go:73-78 | element k's rendering sits right after "[" and the renderings of the k elements before it, each followed by ", "; when another element follows, ", " comes right after it, so element order is preserved |
| `ObjectProperties.ArrayConcat` | object/object.go:68-83 | the rendering of a + b (both non-empty) is a's rendering without its "]", then ", ", then b's rendering without its "[" |
| `Object.ArrayInspect` | object/object.go:68-83 | the loop that appends each element's rendering, followed by the writes of "[", the joined list and "]", returns exactly the Array's `Inspect` |
| `ObjectProperties.HashFraming` | object/object.go:53-55 | a Hash's rendering is "{" and "}" around its "key:value" entries joined by ", "; an empty Hash gives "{}" |
| `ObjectProperties.HashEntriesComplete` | object/object.go:48-51 | the rendering has as many entries as keys; every key's "key:value" entry appears, every entry that appears is some key's "key:value", and each text appears exactly as many times as there are keys whose entry it is |
| `ObjectProperties.HashEntriesOrderFree` | object/object.go:48-51 | any two orders in which the range loop may visit the keys give the same multiset of entries, with as many entries as the Hash has keys |
| `ObjectProperties.HashSingleEntry` | object/object.go:44-58 | a Hash with one entry renders as "{" + key + ":" + value + "}", whatever the iteration order |
| `ObjectProperties.RenderingLengthIsOrderFree` | object/object.go:44-58 | the length of any value's rendering does not depend on the order in which the Hashes inside it are visited |
| `ObjectProperties.HashFreeRenderingIsFixed` | object/object.go:48 | map iteration order is the only freedom a rendering has: a value with no Hash inside renders identically under any two printers that format numbers alike |
| `Object.HashInspect` | object/object.go:44-58 | the loop that visits the keys in the range loop's order and appends "key:value", followed by the writes of "{", the joined list and "}", returns exactly the Hash's `Inspect` |
| `ObjectProperties.FunctionRendering` | object/object.go:142-146 | a Function renders as "fn(", then the parameters joined by ", ", then ") ", then the body, and nothing else; the captured Environment does not affect the text |
| `ObjectProperties.FunctionParameterAt` | object/object.go:138-144 | parameter k's text sits after "fn(" and the k parameters before it, each followed by ", " |
| `Object.FunctionInspect` | object/object.go:134-149 | the loop that collects the parameter texts, followed by the writes of "fn", "(", the joined list, ") " and the body, returns exactly the Function's `Inspect` |
| `ObjectProperties.FunctionLiteralExample` | evaluator/evaluator_test.go:275-287 | a Function with the parameter text "x" and the body text "(x + 2)" that evaluator_test.go:279-285 checks renders as "fn(x) (x + 2)" |
| `ObjectProperties.ScalarRenderings` | object/object.go:103-115 | a Boolean renders as "true" or "false" and parses back to itself; Null renders as "null"; a String renders as its raw text |
| `ObjectProperties.RenderingDoesNotIdentifyVariant` | object/object.go:103-105 | because Strings render without quotes, a String can render exactly like a Boolean, like Null or like an Error while its tag differs, so only `Type()` tells the variants apart |

## Left out

- Number rendering: Go's `%v` formatting of a float64 is not modelled. It is the `Printer.numberText` parameter, and no property depends on it.
- Float arithmetic and comparison: nothing in `object.go` computes with numbers.
- Map iteration order: the model's `Printer.iterationOrder` gives one order per key set. The Go runtime may render the same Hash in two different orders at two different times. Every lemma holds for every valid order, but the model does not express that one run can use two different orders.
- Hash keys: key hashing and key equality are pointer identity in the source. The model represents them by an `Address` per entry. It does not model how keys are allocated, and it does not model the evaluator's rule for which kinds may be keys.
- Function parameters and body: the parameters and the body are the texts that `ast.Identifier.String()` and `ast.BlockStatement.String()` produce. The ast package is not part of this model.
- The `Environment` type and the evaluator (`Eval`) are not part of this model. The model does not cover scope chains, closures, truthiness or error propagation. A Function's captured environment is kept only as an opaque address.
- Nil pointers: a ReturnValue wrapping nil, or a Function with a nil body, would panic in Go. The model has no nil values.
- Strings: Go strings are byte strings, while the model's `string` is a sequence of characters. The lengths in `FunctionRendering`, `HashLengthOrderFree` and `RenderingLengthIsOrderFree` count characters, not the bytes Go's `len` counts, and invalid UTF-8 cannot be represented.
- Buffer writes: the `bytes.Buffer` writes are modelled as string concatenation. They never fail in Go either.
- Sharing and aliasing: Go values are pointers, while the model uses plain values. Nothing in `object.go` mutates a value after it is created, so aliasing does not change any result.
