/** Facts about concatenation, stated generically so that callers need no extensional reasoning. */
module Seqs {

  lemma DropPrefix<T>(x: seq<T>, y: seq<T>)
    ensures (x + y)[|x|..] == y
    ensures (x + y)[..|x|] == x
  {
  }

  lemma Associate<T>(x: seq<T>, y: seq<T>, z: seq<T>)
    ensures x + y + z == x + (y + z)
  {
  }

  /** Taking k elements of a sequence with a known head keeps the head and k - 1 of the rest. */
  lemma TakeCons<T>(x: T, t: seq<T>, k: nat)
    requires 0 < k <= |t| + 1
    ensures ([x] + t)[..k] == [x] + t[..k - 1]
    ensures ([x] + t[..k - 1])[1..] == t[..k - 1]
  {
  }

  /** Dropping three leading parts of a right-nested concatenation leaves the rest. */
  lemma DropThree<T>(x: seq<T>, y: seq<T>, z: seq<T>, rest: seq<T>)
    ensures (x + (y + (z + rest)))[|x| + |y| + |z|..] == rest
  {
  }
}
