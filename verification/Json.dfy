/**
JSON values and the pair of functions that writes and reads them as one line of bytes. The text
syntax itself is not modelled: a codec is any pair for which reading undoes writing.
*/
module Json {
  import opened Sequences

  /**
  A floating-point number: an infinity, NaN, or a whole number of units of 2^-1074, the smallest
  positive value; every finite double is one.
  */
  datatype Float = Finite(units: int) | Infinite | NotANumber

  /** 2^1074 */
  const UNITS_PER_ONE: int := 0x40000000000000000000000000000000000000000000000000000000000000000000000000000000000000000000000000000000000000000000000000000000000000000000000000000000000000000000000000000000000000000000000000000000000000000000000000000000000000000000000000000000000000000000000000000

  datatype Json =
    | Null
    | Bool(b: bool)
    | Int(n: int)
    | Number(x: Float)
    | Str(text: string)
    | Arr(items: seq<Json>)
    | Obj(fields: map<string, Json>)

  type Fields = map<string, Json>

  /** What reading a text can do: give a value, reject the text, or raise some other exception. */
  datatype Loaded = Parsed(value: Json) | Malformed | Raises

  datatype Codec = Codec(dumps: Json -> seq<byte>, loads: seq<byte> -> Loaded)

  /** Compact writing never emits a newline, and reading undoes it with or without one behind it. */
  ghost predicate Faithful(codec: Codec) {
    forall v: Json {:trigger codec.dumps(v)} ::
      && NEWLINE !in codec.dumps(v)
      && codec.loads(codec.dumps(v)) == Parsed(v)
      && codec.loads(codec.dumps(v) + [NEWLINE]) == Parsed(v)
  }

  /** request.get(name): absent and null read the same. */
  function Get(fields: Fields, name: string): Json {
    if name in fields then fields[name] else Null
  }

  /** Python's value == 1, which True and 1.0 satisfy as well. */
  predicate EqualsOne(v: Json) {
    v == Bool(true) || v == Int(1) || v == Number(Finite(UNITS_PER_ONE))
  }
}
