/** The values that attributes hold, and the codes of their types. */
module Values {
  type code = c: int | 0 <= c < 0x1_0000

  // The codes of the types.
  const BOOL := 1
  const STRING := 2
  const LONG := 3
  const INT := 4
  const LONG_ARRAY := 7
  const INT_ARRAY := 8
  const LONG_LONG_MAP := 9
  const LONG_LONG_ARRAY_MAP := 10

  /** A value; a map by the pairs that its each() delivers, in their order. */
  datatype Value =
    | BoolV(b: bool)
    | StringV(s: seq<code>)
    | LongV(l: int)
    | IntV(i: int)
    | LongsV(a: seq<int>)
    | IntsV(a: seq<int>)
    | MapV(each: seq<(int, int)>)
    | ArrayMapV(each: seq<(int, int)>)

  function KindOf(v: Value): (k: int)
    ensures 1 <= k <= 10
  {
    match v
    case BoolV(_) => BOOL
    case StringV(_) => STRING
    case LongV(_) => LONG
    case IntV(_) => INT
    case LongsV(_) => LONG_ARRAY
    case IntsV(_) => INT_ARRAY
    case MapV(_) => LONG_LONG_MAP
    case ArrayMapV(_) => LONG_LONG_ARRAY_MAP
  }
}
