/** What several components share: the fixed-width integer types, the terminating character, options, powers of two. */
module Words {
  type byte = b: int | 0 <= b < 0x100
  type half = h: int | 0 <= h < 0x1_0000
  type word = w: int | 0 <= w < 0x1_0000_0000

  const NUL: char := '\0'

  /** The character at position i of a text, behind which the memory is taken to hold NULs. */
  function At(text: seq<char>, i: nat): char {
    if i < |text| then text[i] else NUL
  }

  datatype Option<T> = None | Some(value: T)

  function Pow2(k: nat): (r: nat)
    ensures r > 0
  {
    if k == 0 then 1 else 2 * Pow2(k - 1)
  }

  function Repeat<T>(x: T, n: nat): (r: seq<T>)
    ensures |r| == n && forall i :: 0 <= i < n ==> r[i] == x
  {
    seq(n, _ => x)
  }
}
