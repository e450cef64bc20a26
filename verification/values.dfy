/** The dynamically typed values an inventory entry's fields hold: the
    generator writes nulls, booleans, an integer id, strings and lists of
    strings, and the frontend reads the same JSON back. */
module Values {

  datatype Value = Null | Bool(b: bool) | Int(i: int) | Text(s: string) | List(items: seq<string>)

  /** The values JavaScript's `||` treats as false. An array, even an empty
      one, is never falsy. */
  predicate Falsy(v: Value) {
    v == Null || v == Bool(false) || v == Int(0) || v == Text([])
  }
}
