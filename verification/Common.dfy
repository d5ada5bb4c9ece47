/** Types shared by the models. */
module Common {

  type Byte = b: int | 0 <= b < 256

  type Bytes = seq<Byte>

  /** A character as a 32-bit unsigned integer. */
  type Rune = r: int | 0 <= r < 0x1_0000_0000

  datatype Option<T> = None | Some(value: T)

  /** A message given in chunks. */
  function Joined(chunks: seq<Bytes>): Bytes {
    if chunks == [] then [] else Joined(chunks[..|chunks| - 1]) + chunks[|chunks| - 1]
  }

  const U32: nat := 0x1_0000_0000
  const U64: nat := 0x1_0000_0000_0000_0000

  const INT_LIMIT := 0x8000_0000

  /** Conversion of an integer to a 32-bit C `int`. */
  function ToInt32(x: int): (r: int)
    ensures -INT_LIMIT <= r < INT_LIMIT
    ensures -INT_LIMIT <= x < INT_LIMIT ==> r == x
  {
    (x + INT_LIMIT) % (2 * INT_LIMIT) - INT_LIMIT
  }

  /** A length survives the conversion if and only if it is below the limit. */
  lemma LengthKept(n: nat)
    ensures ToInt32(n) <= n && (ToInt32(n) == n <==> n < INT_LIMIT)
  {
  }

  /** A sum just beyond the limit turns negative. */
  lemma SumOverflows(x: nat)
    requires INT_LIMIT <= x < 2 * INT_LIMIT
    ensures ToInt32(x) < 0
  {
  }
}
