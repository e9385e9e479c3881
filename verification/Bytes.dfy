/** Bytes, options and the one sequence operation everything else is stated with:
    the concatenation of the pieces a stream arrived in. */
module Bytes {

  // An element of a Uint8Array or of a Go []byte.
  type byte = x: int | 0 <= x < 0x100

  // What fits in an unsigned 32-bit length field.
  const UINT32_LIMIT := 0x1_0000_0000

  datatype Option<+T> = None | Some(value: T)

  /** The stream that was cut into `parts`. */
  function Flatten<T>(parts: seq<seq<T>>): seq<T> {
    if parts == [] then [] else parts[0] + Flatten(parts[1..])
  }

  lemma {:induction false} FlattenConcat<T>(a: seq<seq<T>>, b: seq<seq<T>>)
    ensures Flatten(a + b) == Flatten(a) + Flatten(b)
  {
    if a == [] {
      assert a + b == b;
    } else {
      assert (a + b)[1..] == a[1..] + b;
      FlattenConcat(a[1..], b);
    }
  }

  lemma Associate<T>(a: seq<T>, b: seq<T>, c: seq<T>)
    ensures a + b + c == a + (b + c)
  {
  }

  lemma FlattenSnoc<T>(a: seq<seq<T>>, x: seq<T>)
    ensures Flatten(a + [x]) == Flatten(a) + x
  {
    FlattenConcat(a, [x]);
    assert Flatten([x]) == x;
  }
}
