/** Parsed JSON, with N for its numbers; an object keeps its entries in order. */
module JsonValues {
  datatype Json<N> =
    | Null
    | Bool(b: bool)
    | Num(n: N)
    | Str(s: string)
    | Arr(items: seq<Json<N>>)
    | Obj(members: seq<(string, Json<N>)>)

  predicate DistinctKeys<V>(ms: seq<(string, V)>) {
    forall i, j | 0 <= i < j < |ms| :: ms[i].0 != ms[j].0
  }

  /** What a parser returns: no repeated key at any depth, numbers as it makes them. */
  predicate WellFormed<N>(v: Json<N>, number: N -> bool) {
    match v
    case Num(n) => number(n)
    case Arr(xs) => forall i | 0 <= i < |xs| :: WellFormed(xs[i], number)
    case Obj(ms) => DistinctKeys(ms) && forall i | 0 <= i < |ms| :: WellFormed(ms[i].1, number)
    case _ => true
  }
}
