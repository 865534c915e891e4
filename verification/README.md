# Embedded Python value marshalling, in Dafny

A model of the value bridge in the embedded-Python helper class `Python` of
the JavaCPP CPython tests. The bridge has three parts:

- `toPyObject` turns a Java object into a Python object. It dispatches on
  the runtime class in a fixed order: null, Boolean, Byte, Character, Short,
  Integer, Long, Float, Double, String, `byte[]`, Map, `Object[]`,
  Iterable. Anything else is refused.
- `toJava` turns a Python object back into a Java object. It dispatches in
  the order None, bool, int, float, str, bytes, bytearray, dict, then any
  object that can be iterated. Anything else is refused.
- `put` and `get` store and fetch named variables in the interpreter's
  global namespace, converting on the way in and on the way out.

Both conversions record a *type tree* as they walk a value. It is a list of
`(indent, type name)` lines. A composite raises the indent before it visits
its parts and lowers it afterwards. A value with no mapping adds one line
marked `"  <- Unsupported"`, and the tree becomes part of the exception.

## Layout

| file | module | what it holds |
|---|---|---|
| values.dfy | `Values` | Java values (`JVal`), Python values (`PVal`), the fixed-width Java integers, `byte[]` and bytes payloads |
| type_tree.dfy | `TypeTrees` | the type tree: `AddType`, `Enter` (`tab++`), `Leave` (`tab--`), the unsupported marker |
| outcomes.dfy | `Outcomes` | `Result`, the failures the bridge throws, a value paired with its tree |
| numbers.dfy | `Numbers` | `lengthToInt`, Java's `(int)` cast, reading a Python int as a `long` |
| keys.dfy | `Keys` | dict semantics (`PyDict_SetItem`) and `LinkedHashMap.put`, both in insertion order |
| java_to_python.dfy | `JavaToPython` | `toPyObject`, its table as a reference function (`Image`), its trace (`JShape`), and the proofs connecting them |
| python_to_java.dfy | `PythonToJava` | `toJava`, its table (`JImage`), its trace (`PShape`), and the proofs |
| round_trip.dfy | `RoundTrip` | what `toJava(toPyObject(v))` gives back: the normal form of `v` |
| session.dfy | `Session` | the globals map, `get`/`getPyObject`/`put`/`putPyObject` |

Every conversion is a pure function from a value and a tree to a
`Result<Step<...>>`. The `Step` holds the converted value and the tree
afterwards. The failure takes the place of the exception. Each conversion has
an independent description to prove it against:

- the table, as a total function on the values that have a mapping
  (`Convertible`/`Image` and `Representable`/`JImage`);
- the trace, as the list of nodes a value produces at a given depth
  (`JShape`/`PShape`).

`ValueSound` ties the two to the converter. The conversion succeeds exactly
when the table has a mapping, it yields the table's value, and it leaves the
tree extended by exactly the value's shape at the same indent. A failure that
carries a tree carries a proper extension of the starting tree that is a
prefix of the full shape. When the failure is an unsupported value, that
tree ends with the marked node. An unhashable key carries the tree as it
stood once the entry's value was converted. The 2G error and an int overflow
carry no tree.

## Model

| member | source | states |
|---|---|---|
| `Numbers.NarrowToInt` | tests/dc43.python/src/main/java/org/bytedeco/embeddedpython/Python.java:537 | the `(int)` cast keeps the value modulo 2^32 and keeps it exactly when it is already an `int` |
| `Numbers.LengthToInt` | tests/dc43.python/src/main/java/org/bytedeco/embeddedpython/Python.java:533-538 | a length is accepted exactly when it is at most `Integer.MAX_VALUE`; an accepted non-negative length is returned unchanged; a larger one fails with the 2G error |
| `Numbers.AsLongAsWrittenLosesOverflow` | tests/dc43.python/src/main/java/org/bytedeco/embeddedpython/Python.java:453 | every int outside the `long` range reaches Java as a different number, while the checked read refuses it |
| `Numbers.AsLongAgreesInRange` | tests/dc43.python/src/main/java/org/bytedeco/embeddedpython/Python.java:451-453 | where the int fits, the unchecked and the checked read agree |
| `Numbers.TwoToTheSixtyThreeReadsAsMinusOne` | tests/dc43.python/src/main/java/org/bytedeco/embeddedpython/Python.java:453 | Python's `2**63` reaches Java as `-1L` |
| `Keys.IndexOfKey` | tests/dc43.python/src/main/java/org/bytedeco/embeddedpython/Python.java:588 | the first entry whose key is the same Python key (bool and int compare by value) and none before it, or -1 when there is none |
| `Keys.AssignSemantics` | tests/dc43.python/src/main/java/org/bytedeco/embeddedpython/Python.java:588 | after `d[k] = v` the key maps to the value and every other key to what it mapped to before; a present key keeps its place, a new one goes last |
| `Keys.SetItemStores` | tests/dc43.python/src/main/java/org/bytedeco/embeddedpython/Python.java:588 | checking `PyDict_SetItem`'s status: a hashable key is stored and others are untouched; an unhashable key is reported (corrected behaviour) |
| `Keys.ListKeyIsDroppedSilently` | tests/dc43.python/src/main/java/org/bytedeco/embeddedpython/Python.java:588 | as written, an entry whose key becomes a list leaves the dict unchanged and nothing reports it |
| `Keys.InsertAllKeepsOrder` | tests/dc43.python/src/main/java/org/bytedeco/embeddedpython/Python.java:585-590 | entries with pairwise distinct keys land in the dict exactly in the order they are inserted |
| `Keys.IndexOfJavaKey` | tests/dc43.python/src/main/java/org/bytedeco/embeddedpython/Python.java:486 | the entry whose key equals the given one and none before it, or -1 |
| `Keys.MapPutSemantics` | tests/dc43.python/src/main/java/org/bytedeco/embeddedpython/Python.java:486 | `LinkedHashMap.put` maps the key to the value, keeps every other mapping, keeps the slot and key of a present key and appends a new one |
| `Keys.PutAllKeepsOrder` | tests/dc43.python/src/main/java/org/bytedeco/embeddedpython/Python.java:476-488 | entries with pairwise distinct keys land in the `LinkedHashMap` exactly in the order they are put |
| `JavaToPython.KeyHashableMatchesPython` | tests/dc43.python/src/main/java/org/bytedeco/embeddedpython/Python.java:588 | the Python form of a map key is hashable exactly when the key is not a Map, array or Iterable |
| `JavaToPython.ToPyObjectSound` | tests/dc43.python/src/main/java/org/bytedeco/embeddedpython/Python.java:543-616 | `toPyObject` succeeds exactly when every class reached has a mapping and every map key can be hashed; it yields the table's value, extends the tree by the value's shape at the starting indent, and on failure leaves a proper extension of the starting tree that is a prefix of that shape and ends with the marked node |
| `JavaToPython.ToPyMapSound` | tests/dc43.python/src/main/java/org/bytedeco/embeddedpython/Python.java:578-593 | the same for a Map |
| `JavaToPython.ToPyMapAccepts` | tests/dc43.python/src/main/java/org/bytedeco/embeddedpython/Python.java:578-593 | a Map converts exactly when all its entries do, to the dict built from their images |
| `JavaToPython.ToPyMapTrace` | tests/dc43.python/src/main/java/org/bytedeco/embeddedpython/Python.java:578-593 | a Map records its node, its entries one level deeper, and restores the indent |
| `JavaToPython.ToPyListSound` | tests/dc43.python/src/main/java/org/bytedeco/embeddedpython/Python.java:594-616 | the same for an `Object[]` or Iterable |
| `JavaToPython.ToPyListAccepts` | tests/dc43.python/src/main/java/org/bytedeco/embeddedpython/Python.java:594-616 | an `Object[]` or Iterable converts exactly when all its elements do, to the list of their images |
| `JavaToPython.ToPyListTrace` | tests/dc43.python/src/main/java/org/bytedeco/embeddedpython/Python.java:594-616 | an `Object[]` or Iterable records its node, its elements one level deeper, and restores the indent |
| `JavaToPython.ToPyItemsSound` | tests/dc43.python/src/main/java/org/bytedeco/embeddedpython/Python.java:600-602 | the elements convert left to right, each one's tree feeding the next, into the list of their images in order |
| `JavaToPython.ToPyEntriesSound` | tests/dc43.python/src/main/java/org/bytedeco/embeddedpython/Python.java:585-590 | the entries convert in iteration order, inserted one after another into the dict |
| `JavaToPython.ToPyEntrySound` | tests/dc43.python/src/main/java/org/bytedeco/embeddedpython/Python.java:586-589 | one entry: stored exactly when key and value convert and the key is hashable, with the key's and the value's shapes under "Map.Entry" |
| `JavaToPython.ToPyEntryAccepts` | tests/dc43.python/src/main/java/org/bytedeco/embeddedpython/Python.java:588 | an entry is stored exactly when key and value convert and the key can be hashed, as `d[image of key] = image of value` |
| `JavaToPython.ToPyEntryTrace` | tests/dc43.python/src/main/java/org/bytedeco/embeddedpython/Python.java:586-589 | an entry records "Map.Entry" and then the key before the value, one level deeper, and restores the indent |
| `JavaToPython.ToPyEntryTraceOk` | tests/dc43.python/src/main/java/org/bytedeco/embeddedpython/Python.java:586-589 | a stored entry leaves the tree extended by exactly its shape |
| `JavaToPython.ToPyEntryTraceErr` | tests/dc43.python/src/main/java/org/bytedeco/embeddedpython/Python.java:586-589 | a failing entry carries a tree that is a proper extension of the starting tree and a prefix of the entry's shape, ending with the marked node when a part was unsupported |
| `JavaToPython.ToPyObjectTraceBalanced` | tests/dc43.python/src/main/java/org/bytedeco/embeddedpython/Python.java:579-615 | a successful conversion returns the builder at the indent it started from, its own node first at that indent |
| `JavaToPython.MapEntryDepths` | tests/dc43.python/src/main/java/org/bytedeco/embeddedpython/Python.java:586-588 | for every entry of every map: its "Map.Entry" node is one level below the map's node and its key's nodes, then its value's, two levels below, between the nodes of the entries before it and after it |
| `JavaToPython.UnsupportedObject` | tests/dc43.python/src/main/java/org/bytedeco/embeddedpython/Python.java:657-659 | an object of an unmapped class adds exactly one marked node at the current indent and fails with that tree and its `toString()` |
| `JavaToPython.ItemsStopAtFirstFailure` | tests/dc43.python/src/main/java/org/bytedeco/embeddedpython/Python.java:600-602 | the elements of an `Object[]` or `Iterable` convert until the first one that fails; the conversion fails exactly as that element does, from the tree the earlier elements left, and visits no later element |
| `JavaToPython.UnsupportedInsideArray` | tests/dc43.python/src/main/java/org/bytedeco/embeddedpython/Python.java:594-616 | an unsupported object after elements that all convert fails with the container's node, the earlier elements' nodes one level deeper, the marked node at that level, and the object's `toString()` |
| `JavaToPython.ByteArrayNotLengthChecked` | tests/dc43.python/src/main/java/org/bytedeco/embeddedpython/Python.java:574-577 | a `byte[]` of any length becomes bytes with the same contents: this direction has no 2G check |
| `JavaToPython.IntegralsWiden` | tests/dc43.python/src/main/java/org/bytedeco/embeddedpython/Python.java:550-564 | Byte, Character, Short, Integer and Long all become the Python int of the same value |
| `JavaToPython.ListOrderPreserved` | tests/dc43.python/src/main/java/org/bytedeco/embeddedpython/Python.java:594-616 | an array's or iterable's elements land in the list at the same positions |
| `JavaToPython.MapOrderPreserved` | tests/dc43.python/src/main/java/org/bytedeco/embeddedpython/Python.java:585-590 | a map whose keys stay distinct in Python and are not floating-point becomes the dict of its entries in iteration order |
| `PythonToJava.ToJavaSound` | tests/dc43.python/src/main/java/org/bytedeco/embeddedpython/Python.java:442-531 | `toJava` succeeds exactly when every type reached has a mapping, every int fits a `long` and every byte payload fits a Java array; it yields the table's value, extends the tree by the value's shape, and fails only with the unsupported, 2G or overflow error, an unsupported one leaving a prefix of the shape that ends with the marked node |
| `PythonToJava.ToJavaDictSound` | tests/dc43.python/src/main/java/org/bytedeco/embeddedpython/Python.java:470-491 | the same for a dict |
| `PythonToJava.ToJavaDictAccepts` | tests/dc43.python/src/main/java/org/bytedeco/embeddedpython/Python.java:470-491 | a dict converts exactly when all its items do, to the `LinkedHashMap` built from their images |
| `PythonToJava.ToJavaDictTrace` | tests/dc43.python/src/main/java/org/bytedeco/embeddedpython/Python.java:470-491 | a dict records its node, its items one level deeper, and restores the indent |
| `PythonToJava.ToJavaIterableSound` | tests/dc43.python/src/main/java/org/bytedeco/embeddedpython/Python.java:492-515 | the same for any other iterable |
| `PythonToJava.ToJavaIterableAccepts` | tests/dc43.python/src/main/java/org/bytedeco/embeddedpython/Python.java:492-515 | an iterable converts exactly when every item it yields does, to the `ArrayList` of their images |
| `PythonToJava.ToJavaIterableTrace` | tests/dc43.python/src/main/java/org/bytedeco/embeddedpython/Python.java:492-515 | an iterable records `iterable(<type>)`, its items one level deeper, and restores the indent |
| `PythonToJava.ToJavaItemsSound` | tests/dc43.python/src/main/java/org/bytedeco/embeddedpython/Python.java:498-508 | the drawn items convert in draw order into the list of their images |
| `PythonToJava.ToJavaEntriesSound` | tests/dc43.python/src/main/java/org/bytedeco/embeddedpython/Python.java:476-489 | the items convert in `PyDict_Next` order, put one after another into the map |
| `PythonToJava.ToJavaEntrySound` | tests/dc43.python/src/main/java/org/bytedeco/embeddedpython/Python.java:484-487 | one item: put exactly when key and value convert, with the key's and the value's shapes under "item" |
| `PythonToJava.ToJavaEntryAccepts` | tests/dc43.python/src/main/java/org/bytedeco/embeddedpython/Python.java:486 | an item is put exactly when key and value convert, as `map.put(image of key, image of value)` |
| `PythonToJava.ToJavaEntryTrace` | tests/dc43.python/src/main/java/org/bytedeco/embeddedpython/Python.java:484-487 | an item records "item" and then the key before the value, one level deeper, and restores the indent |
| `PythonToJava.ToJavaEntryTraceOk` | tests/dc43.python/src/main/java/org/bytedeco/embeddedpython/Python.java:484-487 | a converted item leaves the tree extended by exactly its shape |
| `PythonToJava.ToJavaEntryTraceErr` | tests/dc43.python/src/main/java/org/bytedeco/embeddedpython/Python.java:484-487 | an item failing as unsupported leaves a prefix of its shape that ends with the marked node |
| `PythonToJava.ToJavaTraceBalanced` | tests/dc43.python/src/main/java/org/bytedeco/embeddedpython/Python.java:471-510 | a successful conversion returns the builder at the indent it started from, its own node first at that indent |
| `PythonToJava.DictItemDepths` | tests/dc43.python/src/main/java/org/bytedeco/embeddedpython/Python.java:484-486 | for every item of every dict: its "item" node is one level below the dict's node and its key's nodes, then its value's, two levels below, between the nodes of the items before it and after it |
| `PythonToJava.BoolBeforeInt` | tests/dc43.python/src/main/java/org/bytedeco/embeddedpython/Python.java:448-450 | a bool becomes a Boolean of the same truth value and never a Long, though bool is a kind of int |
| `PythonToJava.IntFitsOrFails` | tests/dc43.python/src/main/java/org/bytedeco/embeddedpython/Python.java:451-453 | an int becomes the Long of the same value exactly when it fits 64 bits, and otherwise fails with an overflow |
| `PythonToJava.BytesLength` | tests/dc43.python/src/main/java/org/bytedeco/embeddedpython/Python.java:460-469 | bytes and bytearray become a `byte[]` with exactly their contents and length when the size passes `lengthToInt`, and fail with the 2G error otherwise |
| `PythonToJava.DrawnStopAtFirstFailure` | tests/dc43.python/src/main/java/org/bytedeco/embeddedpython/Python.java:498-508 | the items drawn from an iterator convert until the first one that fails; the conversion fails exactly as that item does, from the tree the earlier items left, and converts no later item |
| `PythonToJava.UnsupportedInsideIterable` | tests/dc43.python/src/main/java/org/bytedeco/embeddedpython/Python.java:492-530 | an unsupported object drawn after items that all convert fails with the iterable's node, the earlier items' nodes one level deeper, the marked node at that level, and the object's `str()` when there is one |
| `PythonToJava.UnsupportedPythonObject` | tests/dc43.python/src/main/java/org/bytedeco/embeddedpython/Python.java:517-530 | an object of an unmapped type adds exactly one marked node at the current indent and fails with that tree and its `str()` if any |
| `PythonToJava.IterableOrderPreserved` | tests/dc43.python/src/main/java/org/bytedeco/embeddedpython/Python.java:498-508 | the items an iterator yields land in the `ArrayList` in draw order |
| `PythonToJava.DictOrderPreserved` | tests/dc43.python/src/main/java/org/bytedeco/embeddedpython/Python.java:476-488 | a dict whose keys stay distinct as Java keys becomes the `LinkedHashMap` of its items in `PyDict_Next` order |
| `RoundTrip.RoundTrip` | tests/dc43.python/src/main/java/org/bytedeco/embeddedpython/Python.java:543-616 | for a supported value whose map keys stay distinct in Python and are not floating-point, both conversions succeed from any trees and `toJava` returns the normal form of the value |
| `RoundTrip.FloatKeysExcluded` | tests/dc43.python/src/main/java/org/bytedeco/embeddedpython/Python.java:585-590 | a map with a `Float` or `Double` key is outside the round trip's precondition, because Python merges `0.0` with `-0.0` and `1` with `1.0` |
| `RoundTrip.RoundTripImage` | tests/dc43.python/src/main/java/org/bytedeco/embeddedpython/Python.java:442-531 | the Python image of such a value can always be converted back, and comes back as its normal form |
| `RoundTrip.RoundTripList` | tests/dc43.python/src/main/java/org/bytedeco/embeddedpython/Python.java:594-616 | an array or iterable comes back as an `ArrayList` of its elements' normal forms |
| `RoundTrip.RoundTripMap` | tests/dc43.python/src/main/java/org/bytedeco/embeddedpython/Python.java:578-593 | a map comes back as a `LinkedHashMap` of its normalised entries in the same order |
| `RoundTrip.RoundTripItems` | tests/dc43.python/src/main/java/org/bytedeco/embeddedpython/Python.java:476-488 | each entry's Python image comes back as the normalised entry |
| `RoundTrip.RoundTripEntry` | tests/dc43.python/src/main/java/org/bytedeco/embeddedpython/Python.java:586-588 | key and value of an entry each come back as their normal form |
| `RoundTrip.MapImageInOrder` | tests/dc43.python/src/main/java/org/bytedeco/embeddedpython/Python.java:585-590 | a map whose keys stay distinct becomes the dict of its entries' images in iteration order |
| `RoundTrip.NormalKeysDistinct` | tests/dc43.python/src/main/java/org/bytedeco/embeddedpython/Python.java:486 | keys that stay distinct in Python have distinct normal forms, so `put` never merges them |
| `RoundTrip.DistinctKeysStayDistinct` | tests/dc43.python/src/main/java/org/bytedeco/embeddedpython/Python.java:486 | two keys that are different Python keys have different normal forms |
| `RoundTrip.NormalizeInvisible` | tests/dc43.python/src/main/java/org/bytedeco/embeddedpython/Python.java:543-616 | a value and its normal form are supported together and convert to the same Python object |
| `RoundTrip.NormalizeInvisibleList` | tests/dc43.python/src/main/java/org/bytedeco/embeddedpython/Python.java:594-616 | the same for an array or iterable |
| `RoundTrip.NormalizeInvisibleMap` | tests/dc43.python/src/main/java/org/bytedeco/embeddedpython/Python.java:578-593 | the same for a map |
| `RoundTrip.NormalizeInvisibleEntry` | tests/dc43.python/src/main/java/org/bytedeco/embeddedpython/Python.java:586-588 | the same for each map entry, including whether its key can be hashed |
| `RoundTrip.NormalFixed` | tests/dc43.python/src/main/java/org/bytedeco/embeddedpython/Python.java:442-531 | a value already in normal form is its own normal form |
| `RoundTrip.NormalFixedMap` | tests/dc43.python/src/main/java/org/bytedeco/embeddedpython/Python.java:470-491 | the same for a map |
| `RoundTrip.NormalFixedEntry` | tests/dc43.python/src/main/java/org/bytedeco/embeddedpython/Python.java:486 | the same for a map entry |
| `RoundTrip.JImageNormal` | tests/dc43.python/src/main/java/org/bytedeco/embeddedpython/Python.java:442-531 | everything `toJava` builds is in normal form: only Boolean, Long, Double, String, `byte[]`, `LinkedHashMap` and `ArrayList`, all the way down |
| `RoundTrip.JImageNormalDict` | tests/dc43.python/src/main/java/org/bytedeco/embeddedpython/Python.java:470-491 | the same for a dict |
| `RoundTrip.JImageNormalItem` | tests/dc43.python/src/main/java/org/bytedeco/embeddedpython/Python.java:484-487 | the same for a dict item |
| `RoundTrip.PutAllKeepsNormal` | tests/dc43.python/src/main/java/org/bytedeco/embeddedpython/Python.java:486 | `put` stores only the keys and values it is given |
| `Session.GetFailsIffUnbound` | tests/dc43.python/src/main/java/org/bytedeco/embeddedpython/Python.java:340-351 | `get` throws `NoSuchElementException` exactly when the name is unbound; a bound name converts exactly when its object is representable, to the table's value |
| `Session.PutBinds` | tests/dc43.python/src/main/java/org/bytedeco/embeddedpython/Python.java:427-440 | `put` succeeds exactly when the value converts; it binds the name to the converted object and leaves every other name bound or unbound as before |
| `Session.PutLeavesOtherNames` | tests/dc43.python/src/main/java/org/bytedeco/embeddedpython/Python.java:427-440 | after `put`, `get` of any other name gives what it gave before |
| `Session.PutThenGet` | tests/dc43.python/src/main/java/org/bytedeco/embeddedpython/Python.java:340-440 | `put` and then `get` of the same name returns the normal form of the value put, when its map keys stay distinct in Python and are not floating-point |
| `TypeTrees.MarkedLabel` | tests/dc43.python/src/main/java/org/bytedeco/embeddedpython/Python.java:517 | a type name followed by the unsupported suffix carries the marker |

## Left out

- Interpreter start-up (static initialiser, `init`, `initialize`, the shutdown hook; Python.java:150-193): process setup and native library loading.
- `Pip` install, upgrade and uninstall (Python.java:91-141): subprocess I/O.
- `eval` and `exec` with the stdout/stderr capture (Python.java:209-281): what they do is the interpreter's own behaviour.
- `synchronized` locking and the nested `eval` inside `exec`: concurrency.
- Reference counting (`Py_DecRef` on every path): object ownership in the foreign runtime.
- Floating point: a float is carried as the 64-bit pattern of a double and never interpreted. A Java `Float` is carried as its exact widening to double.
- `toPyCFunction` (Python.java:662-698): every branch that would reach it is commented out.
- `toLongArray`, `toIntArray` and `toIntArrayDiv` (Python.java:700-710): nothing calls them.
- TestPython.java: a timing demo with no logic of its own.
- The `TypeTreeBuilder` class is not part of this model. What it does is inferred from its uses. The constructor argument `1` is the starting indent. `addType` appends one node at the current indent. The rendering (`toString`) and so the exception message text are not modelled: a failure carries the list of nodes instead.
- `PyObject_Str` and `PyUnicode_AsUTF8` of the unsupported value: its rendering is a parameter of the value, absent when `str()` fails.
- String encoding: `PyUnicode_FromString` and `PyUnicode_AsUTF8` are taken as exact. Embedded NUL characters, invalid surrogates and encoding errors are not modelled.
- `PyDict_SetItemString` failing in `putPyObject` (Python.java:434-435) happens only when memory runs out. `put` is modelled as always binding once the conversion succeeds.
- An iterator that raises part-way through ends the list just like exhaustion, as `PyIter_Next` returning NULL does in the source. The model's iterable is the sequence of items drawn before that.
- `Keys.SameKey`: Python key equality is approximated. Bool and int compare by value, and everything else compares structurally. A float key is compared by its bit pattern, so the model keeps `0.0` and `-0.0` apart, and also `1` and `1.0`, which Python merges. A dict built from a Java map with float keys can therefore have too many entries in the model. `Keys.DistinctKeys`, and through it `RoundTrip.KeysDistinct`, excludes float keys, so the order and round-trip lemmas make no claim about such maps. Objects that hash by identity are not modelled.
- Java key equality in `LinkedHashMap.put` is structural equality of the modelled values. Java's identity equality of `byte[]` keys and the order-insensitive equality of Map keys are not modelled. Nor is `Double.equals` treating NaNs with different bit patterns as equal.
- `JavaToPython.ToPyObjectSound`: on failure it states that the tree ends with the marked node, not that this is the only marked node. `UnsupportedObject` states that one node is added at the leaf. `ItemsStopAtFirstFailure` states that a list stops at its first failing element. No lemma states that a map stops at its first failing entry.
- `PythonToJava.ToJavaSound`: the same gap. On an unsupported failure the tree ends with a marked node, but the contract does not pin it to the first unsupported value. `DrawnStopAtFirstFailure` states that an iterable stops at its first failing item. No lemma states that a dict stops at its first failing item.
- `RoundTrip.RoundTrip`: requires `KeysDistinct`. No map inside the value may have two keys that become the same Python key, or a `Float`/`Double` key. Colliding keys are merged by the dict, and what comes back then is not characterised.
- Values are finite trees. Three inputs on which the source never returns are outside the model: an endless Python iterator such as `itertools.count()`, where the loop at Python.java:498-508 draws until memory runs out; a Python list that contains itself; and a Java collection that contains itself, where both directions recurse until the stack overflows.
- `Session.Get`: reading consumes one-shot iterators, and this is not modelled. `getIter` (Python.java:715-720) returns a generator, `map`, `zip` or file object itself, so `get` drains it, and a second `get` of the same name gives an empty `ArrayList`. The model's `get` leaves the globals unchanged and returns the same value every time.
- Integer width: `PyLong_FromLong` and `PyLong_AsLong` (Python.java:451-453, 550-564) are taken to use a 64-bit C `long`, as on LP64 platforms. On LLP64 Windows the C `long` is 32 bits, so the widening of `Long` and the overflow bound of the read differ there.
- `Numbers.LengthToInt`: the value is stated for non-negative lengths only. A bytes size is never negative, and the cast is modelled as a 32-bit wrap for the rest.

## Findings

| source | as written | input that shows it | evidently intended | confidence | as-written member | corrected member |
|---|---|---|---|---|---|---|
| tests/dc43.python/src/main/java/org/bytedeco/embeddedpython/Python.java:451-453 | `return PyLong_AsLong(obj);` with no check of the error indicator | the Python int `2**63`: CPython returns -1 with an OverflowError set, and Java receives `-1L` (`Numbers.TwoToTheSixtyThreeReadsAsMinusOne`) | refuse an int that does not fit a `long` with an exception, as `lengthToInt` does for sizes | not executed | `Numbers.AsLongAsWritten` | `Numbers.AsLong` |
| tests/dc43.python/src/main/java/org/bytedeco/embeddedpython/Python.java:585-590 | `PyDict_SetItem(obj, key, value)` with its status ignored | a Java Map whose key is a `List`: the key becomes a Python list, which cannot be hashed, so the entry is dropped from the dict without a Java exception and the `TypeError` stays pending in the interpreter (`Keys.ListKeyIsDroppedSilently`) | report the failed insertion, as `putPyObject` does for `PyDict_SetItemString` at line 434 | not executed | `Keys.SetItemIgnoringStatus` | `Keys.SetItemStores` |

The converters use the corrected behaviour. `toJava` refuses an oversized
int with `IntOverflow`, and `toPyObject` refuses an unhashable key with
`UnhashableKey`.
