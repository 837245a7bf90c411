/** Words, bytes and the few sequence shapes shared by the other modules. */
module Bytes {

  type byte = n: nat | n < 256

  /** The source computes lengths and offsets in uint32_t. */
  const WORD: nat := 0x1_0000_0000

  type uint32 = n: nat | n < WORD

  function Wrap(n: nat): uint32 {
    n % WORD
  }

  datatype Option<+T> = None | Some(value: T)

  /** `k` copies of `x`. */
  function Repeat<T>(x: T, k: nat): (r: seq<T>)
    ensures |r| == k
    ensures forall i :: 0 <= i < k ==> r[i] == x
  {
    seq(k, _ => x)
  }

  /** xs[0]^ks[0] ... xs[n-1]^ks[n-1]: the first `n` elements of a list, each of
      which may stutter. */
  function Expand<T>(xs: seq<T>, ks: seq<nat>, n: nat): seq<T>
    requires |xs| == |ks| && n <= |xs|
  {
    if n == 0 then [] else Expand(xs, ks, n - 1) + Repeat(xs[n-1], ks[n-1])
  }

  function Count<T(==)>(x: T, s: seq<T>): nat
    decreases |s|
  {
    if s == [] then 0
    else Count(x, s[..|s|-1]) + if s[|s|-1] == x then 1 else 0
  }

  lemma CountSnoc<T>(x: T, s: seq<T>, e: T)
    ensures Count(x, s + [e]) == Count(x, s) + if e == x then 1 else 0
  {
    assert (s + [e])[..|s|] == s;
  }
}
