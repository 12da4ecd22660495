/** Vocabulary shared by the models: bytes, optional values, concatenation. */
module Common {

  /** An unsigned char of the C sources. */
  type byte = bv8

  const NUL: byte := 0
  const NL: byte := 10
  const CR: byte := 13

  datatype Option<+T> = None | Some(value: T)

  /** Text without the C string terminator. */
  predicate NulFree(s: seq<byte>) {
    forall i :: 0 <= i < |s| ==> s[i] != NUL
  }

  /** All parts joined in order. */
  function Concat<T>(parts: seq<seq<T>>): seq<T> {
    if parts == [] then [] else parts[0] + Concat(parts[1..])
  }

  lemma {:induction false} ConcatAppend<T>(a: seq<seq<T>>, b: seq<seq<T>>)
    ensures Concat(a + b) == Concat(a) + Concat(b)
  {
    if a == [] {
      assert a + b == b;
    } else {
      assert (a + b)[1..] == a[1..] + b;
      ConcatAppend(a[1..], b);
    }
  }
}
