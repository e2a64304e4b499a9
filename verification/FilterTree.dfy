/**
 The filter tree that travels from R to Rust, over whatever it holds as values:
 R scalars on the side that writes it, JSON values on the side that reads it.
 */
module FilterTree {
  import opened Values

  datatype Node<V> =
    | And(args: seq<Node<V>>)
    | Or(args: seq<Node<V>>)
    | Not(arg: Node<V>)
    | Always(holds: bool)   // always_true, always_false
    | Compare(op: Cmp, col: string, value: V)
    | StartsWith(col: string, value: V)
    | NotStartsWith(col: string, value: V)
    | IsNull(col: string)
    | IsNotNull(col: string)
    | IsNan(col: string)
    | IsNotNan(col: string)
    | In(col: string, values: seq<V>)
    | NotIn(col: string, values: seq<V>)

  /** A JSON document. A number is the token it is written as. */
  datatype Json =
    | JNull
    | JBool(b: bool)
    | JNumber(token: string)
    | JString(s: string)
    | JArray(items: seq<Json>)
    | JObject(members: seq<Member>)

  datatype Member = Member(key: string, val: Json)
}
