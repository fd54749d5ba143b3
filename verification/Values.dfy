/** The value trees of the two configuration formats: TOML (every layer) and JSON (plugin
    contributions, schema validation, hooks). Tables and objects are finite maps: the order of
    their keys is not modelled. That equal tables serialise to equal texts, on which the
    deduplication of arrays relies, is an assumption. */
module Values {

  const I64_MIN: int := -0x8000_0000_0000_0000
  const I64_MAX: int := 0x7FFF_FFFF_FFFF_FFFF
  const U64_MAX: int := 0xFFFF_FFFF_FFFF_FFFF

  type I64 = i: int | I64_MIN <= i <= I64_MAX
  /** What a JSON number can hold as an integer: a `u64` or a negative `i64`. */
  type JsonInt = i: int | I64_MIN <= i <= U64_MAX

  /** A 64-bit float; the two zeros are different values, as they print differently. */
  datatype Double =
    | NaN
    | Infinite(negative: bool)
    | Finite(negative: bool, magnitude: real)

  datatype Value =
    | String(s: string)
    | Integer(i: I64)
    | Float(f: Double)
    | Boolean(b: bool)
    | Datetime(d: string)
    | Array(items: seq<Value>)
    | Table(entries: map<string, Value>)

  datatype Number =
    | Int(i: JsonInt)
    | Decimal(negative: bool, magnitude: real)

  datatype Json =
    | Null
    | Bool(b: bool)
    | Num(n: Number)
    | Str(text: string)
    | Arr(elems: seq<Json>)
    | Obj(fields: map<string, Json>)

  datatype Option<+T> = None | Some(value: T)

  datatype Result<+T> = Ok(value: T) | Err(message: string)

  predicate IsContainer(v: Value) {
    v.Table? || v.Array?
  }

  /** Both tables, or both arrays: the only pairs a merge combines instead of replacing. */
  predicate SameContainer(a: Value, b: Value) {
    (a.Table? && b.Table?) || (a.Array? && b.Array?)
  }
}
