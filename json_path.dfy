// Parsed path expressions: the leg sequence the query and mutation engines
// consume. Parsing the path text is not part of this model.

module JsonPath {
  import opened JsonValue

  /** The key `*`, which a key leg uses to mean "every member". */
  const WildcardKey: Key := [0x2A]

  /** An array index: a concrete position, or `[*]` meaning "every element". */
  datatype ArrayIndex = At(n: nat) | AnyIndex

  /** One step of a path: `.key`, `[index]` or the recursive descent `**`. */
  datatype Leg =
    | KeyLeg(key: Key)
    | IndexLeg(index: ArrayIndex)
    | DoubleAsteriskLeg

  /** A path expression; popping a leg is taking the head and the tail. */
  type Path = seq<Leg>

  /** The leg is `.*`, `[*]` or `**`. */
  predicate IsAsterisk(leg: Leg) {
    match leg
    case KeyLeg(k) => k == WildcardKey
    case IndexLeg(idx) => idx == AnyIndex
    case DoubleAsteriskLeg => true
  }

  /** The path's wildcard flags are set: some leg is `.*`, `[*]` or `**`. */
  predicate ContainsAnyAsterisk(p: Path) {
    exists i :: 0 <= i < |p| && IsAsterisk(p[i])
  }

  /**
   * The value a wildcard-free path leads to, if every leg finds its key or
   * index; a wildcard leg leads nowhere.
   */
  function Lookup(j: JSON, legs: Path): (r: Option<JSON>)
    decreases |legs|
  {
    if legs == [] then Some(j)
    else
      var sub := legs[1..];
      match legs[0]
      case IndexLeg(idx) =>
        if j.Array? && idx != AnyIndex && idx.n < |j.arr| then Lookup(j.arr[idx.n], sub) else None
      case KeyLeg(k) =>
        if j.Object? && k != WildcardKey && k in j.obj then Lookup(j.obj[k], sub) else None
      case DoubleAsteriskLeg => None
  }

  lemma NoAsteriskTail(legs: Path)
    requires legs != [] && !ContainsAnyAsterisk(legs)
    ensures !IsAsterisk(legs[0]) && !ContainsAnyAsterisk(legs[1..])
  {
    assert forall i :: 0 <= i < |legs| - 1 ==> legs[1..][i] == legs[i + 1];
    assert !IsAsterisk(legs[0]);
  }
}
