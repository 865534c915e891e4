/**
 The values that cross the Java/Python boundary.

 A Java value is one of the runtime classes the marshaller distinguishes
 (boxed primitives, String, byte[], Map, Object[], Iterable, or anything
 else); a Python value is one of the CPython types the reverse direction
 tests for (None, bool, int, float, str, bytes, bytearray, dict, any other
 iterable, or anything else). Java integral kinds keep their declared width;
 Python ints are unbounded.
 */
module Values {

  newtype int8 = x: int | -0x80 <= x < 0x80
  newtype int16 = x: int | -0x8000 <= x < 0x8000
  /** Java `char`: an unsigned 16-bit code unit. */
  newtype char16 = x: int | 0 <= x < 0x1_0000
  newtype int32 = x: int | -0x8000_0000 <= x < 0x8000_0000
  newtype int64 = x: int | -0x8000_0000_0000_0000 <= x < 0x8000_0000_0000_0000
  newtype uint8 = x: int | 0 <= x < 0x100

  /** `Integer.MAX_VALUE` */
  const INT_MAX: int := 0x7fff_ffff

  predicate InInt64(n: int) {
    -0x8000_0000_0000_0000 <= n < 0x8000_0000_0000_0000
  }

  /** The payload of a Java `byte[]`: a Java array has at most `Integer.MAX_VALUE` elements. */
  type JavaBytes = s: seq<uint8> | |s| <= INT_MAX witness []

  /** The payload of a Python `bytes`/`bytearray`: its size is a non-negative `Py_ssize_t`. */
  type PyBytesData = s: seq<uint8> | |s| < 0x8000_0000_0000_0000 witness []

  /**
   A floating-point number, carried as the bit pattern of an IEEE 754 double and
   never interpreted. A Java `float` is carried as its (exact) widening to double.
   */
  datatype Float64 = Float64(bits: bv64)

  datatype Option<+T> = None | Some(value: T)

  /** A Java object as the marshaller sees it; `JNull` is the `null` reference. */
  datatype JVal =
    | JNull
    | JBoolean(boolValue: bool)
    | JByte(byteValue: int8)
    | JCharacter(charValue: char16)
    | JShort(shortValue: int16)
    | JInteger(intValue: int32)
    | JLong(longValue: int64)
    | JFloat(floatValue: Float64)
    | JDouble(doubleValue: Float64)
    | JString(text: string)
    | JByteArray(bytes: JavaBytes)
      /** a `java.util.Map`, its entries in the map's iteration order */
    | JMap(entries: seq<JEntry>)
      /** an `Object[]` */
    | JArray(elements: seq<JVal>)
      /** an `Iterable` of the named class, its elements in iteration order */
    | JIterable(className: string, elements: seq<JVal>)
      /** any other object: its class name and its `toString()` */
    | JOther(className: string, shown: string)

  datatype JEntry = JEntry(key: JVal, value: JVal)

  /** The class `toJava` builds for every Python iterable. */
  const ARRAY_LIST: string := "java.util.ArrayList"

  /** A Python object as the marshaller sees it. */
  datatype PVal =
    | PNone
    | PBool(truth: bool)
    | PInt(number: int)
    | PFloat(float: Float64)
    | PStr(str: string)
    | PBytes(data: PyBytesData)
    | PByteArray(data: PyBytesData)
      /** a dict, its items in insertion order (the order `PyDict_Next` visits them) */
    | PDict(items: seq<PEntry>)
      /** any other object that supports iteration: its type name and the items
          `PyIter_Next` yields before it returns NULL */
    | PIterable(typeName: string, drawn: seq<PVal>)
      /** anything else: its type name and `str()` of it, when that succeeds */
    | POther(typeName: string, rendering: Option<string>)

  datatype PEntry = PEntry(key: PVal, value: PVal)
}
