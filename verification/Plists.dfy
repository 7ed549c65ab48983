/** The property-list value of `Plist`, a variant over the ten kinds. */
module Plists {
  import opened Words
  import opened Dictionaries

  /** The bytes of a literal. */
  function Ascii(text: string): (bytes: Bytes)
    ensures |bytes| == |text|
  {
    seq(|text|, i requires 0 <= i < |text| => text[i] as int % 256)
  }

  datatype Plist =
    | Null
    | Boolean(flag: bool)
    | Integer(number: Int64)
    | Real(bits: Word64)
    | String(text: Bytes)
    | Data(data: Bytes)
    | Date(seconds: Int64)
    | Array(items: seq<Plist>)
    | Dictionary(entries: seq<Entry<Plist>>)
    | Uid(index: Word64)
  {
    /** Every dictionary in the value keeps its keys strictly increasing, as `std::map` does. */
    ghost predicate WellFormed() {
      match this
      case Array(items) => forall i | 0 <= i < |items| :: items[i].WellFormed()
      case Dictionary(entries) =>
        Sorted(entries) && forall i | 0 <= i < |entries| :: entries[i].value.WellFormed()
      case _ => true
    }

    predicate Container() {
      Array? || Dictionary?
    }

    /** The string, or the empty string when the value is not one. */
    function StringOr(): Bytes {
      if String? then text else []
    }

    /** The value under `key` when this is a dictionary. */
    function Find(key: Bytes): Option<Plist> {
      if Dictionary? then Dictionaries.Find(entries, key) else None
    }
  }

  /** The number of elements of an array or values of a dictionary. */
  function Arity(value: Plist): nat {
    if value.Array? then |value.items| else if value.Dictionary? then |value.entries| else 0
  }

  function Element(value: Plist, index: nat): (element: Plist)
    requires index < Arity(value)
    ensures element < value
  {
    if value.Array? then value.items[index] else value.entries[index].value
  }

  /**
   The conversions between a double's 64-bit pattern and the whole seconds of a date,
   and from the value of a 4-byte word to a double. Floating point itself is not
   modelled: everything proved holds whatever these functions are.
   */
  datatype Doubles = Doubles(
    fromSeconds: Int64 -> Word64,
    toSeconds: Word64 -> Int64,
    widen: Word32 -> Word64)

  /** The bytes of a literal are the codes of its characters. */
  lemma AsciiIs(text: string)
    requires forall i | 0 <= i < |text| :: text[i] < 128 as char
    ensures forall i | 0 <= i < |text| :: Ascii(text)[i] == text[i] as int
  {
  }
}
