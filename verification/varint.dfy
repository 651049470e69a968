/**
 * The unsigned base-128 varint of the Server List Ping protocol: 7-bit groups,
 * least-significant group first, the high bit (0x80) of a byte set when
 * another byte follows. The encoder has no length limit; the reader stops
 * after at most five bytes.
 */
module Varint {
  import opened Wrappers
  import Seqs

  /** One octet on the wire. */
  type byte = x: int | 0 <= x < 256

  /** The largest number of bytes the reader consumes. */
  const MaxVarintBytes := 5

  /** `1 << 7*k`: the weight of the k-th 7-bit group. */
  function Pow128(k: nat): (r: nat)
    ensures r >= 1
  {
    if k == 0 then 1 else 128 * Pow128(k - 1)
  }

  lemma {:induction false} Pow128Monotonic(a: nat, b: nat)
    requires a <= b
    ensures Pow128(a) <= Pow128(b)
    decreases b
  {
    if a < b {
      Pow128Monotonic(a, b - 1);
    }
  }

  /** `b & 0x80 != 0`: another byte follows this one. */
  predicate Continues(b: byte) {
    b >= 128
  }

  /**
   * The number a byte sequence denotes when read as 7-bit groups, least
   * significant first. It is below `Pow128(|bs|)`, so the group added at
   * position k never overlaps the bits already accumulated: OR-ing the
   * shifted group in, as the reader does, is the same as adding it.
   */
  function Value(bs: seq<byte>): (v: nat)
    ensures v < Pow128(|bs|)
  {
    if bs == [] then 0 else bs[0] % 128 + 128 * Value(bs[1..])
  }

  /** A leading byte contributes its low 7 bits at weight 1. */
  lemma ValueCons(b: byte, bs: seq<byte>)
    ensures Value([b] + bs) == b % 128 + 128 * Value(bs)
  {
    assert ([b] + bs)[1..] == bs;
  }

  /** Appending a byte adds its group at the next weight. */
  lemma {:induction false} ValueSnoc(bs: seq<byte>, b: byte)
    ensures Value(bs + [b]) == Value(bs) + (b % 128) * Pow128(|bs|)
    decreases |bs|
  {
    if bs != [] {
      var t := bs[1..];
      assert (bs + [b])[1..] == t + [b];
      ValueSnoc(t, b);
      assert Value(bs + [b]) == bs[0] % 128 + 128 * Value(t + [b]);
      ShiftGroup(Value(t), b % 128, Pow128(|t|));
    } else {
      assert bs + [b] == [b];
      assert [b][1..] == [];
    }
  }

  /** Multiplying by 128 distributes over a group placed at weight p. */
  lemma ShiftGroup(v: int, g: int, p: int)
    ensures 128 * (v + g * p) == 128 * v + g * (128 * p)
  {
  }

  /** Every byte but the last carries the continuation bit, the last does not. */
  predicate WellFormed(bs: seq<byte>) {
    && |bs| >= 1
    && (forall i :: 0 <= i < |bs| - 1 ==> Continues(bs[i]))
    && !Continues(bs[|bs| - 1])
  }

  /**
   * The encoder: emit the low 7 bits, shift right by 7, set the high bit when
   * something remains, stop when nothing does. Its output denotes `n`, has the
   * varint shape, and is the shortest such sequence.
   */
  function Pack(n: nat): (r: seq<byte>)
    ensures WellFormed(r)
    ensures Value(r) == n
    ensures |r| == 1 || Pow128(|r| - 1) <= n
    decreases n
  {
    var low := n % 128;
    var remainder := n / 128;
    if remainder == 0 then [low] else [low + 128] + Pack(remainder)
  }

  lemma PackZero()
    ensures Pack(0) == [0]
  {
  }

  /** A number below 128 is its own single-byte encoding. */
  lemma PackSmall(n: nat)
    requires n < 128
    ensures Pack(n) == [n]
  {
  }

  /** A varint fits in k >= 1 bytes exactly when the number is below 2^(7k). */
  lemma PackLength(n: nat, k: nat)
    requires k >= 1
    ensures |Pack(n)| <= k <==> n < Pow128(k)
  {
    var r := Pack(n);
    if |r| <= k {
      Pow128Monotonic(|r|, k);
    } else {
      Pow128Monotonic(k, |r| - 1);
    }
  }

  /** What the reader returns: the accumulated number and how many bytes it read. */
  datatype Decoded = Decoded(value: nat, consumed: nat)

  /**
   * The reader stops after `k` bytes: the k-th byte is the first without the
   * continuation bit, or the fifth byte has been read.
   */
  predicate StopsAt(s: seq<byte>, k: nat) {
    && 1 <= k <= MaxVarintBytes
    && k <= |s|
    && (forall j :: 0 <= j < k - 1 ==> Continues(s[j]))
    && (!Continues(s[k - 1]) || k == MaxVarintBytes)
  }

  lemma StopsAtUnique(s: seq<byte>, k1: nat, k2: nat)
    requires StopsAt(s, k1) && StopsAt(s, k2)
    ensures k1 == k2
  {
  }

  /** The input ends before any stopping point: every byte present continues. */
  predicate Exhausted(s: seq<byte>) {
    |s| < MaxVarintBytes && forall j :: 0 <= j < |s| ==> Continues(s[j])
  }

  /** One pass of the reader's loop, from group `i` with `num` accumulated so far. */
  function UnpackFrom(s: seq<byte>, i: nat, num: nat): (r: Option<Decoded>)
    requires i <= MaxVarintBytes && i <= |s|
    requires num == Value(s[..i])
    requires forall j :: 0 <= j < i ==> Continues(s[j])
    ensures r.Some? ==> StopsAt(s, r.value.consumed) && r.value.value == Value(s[..r.value.consumed])
    ensures r.None? <==> Exhausted(s)
    decreases MaxVarintBytes - i
  {
    if i == MaxVarintBytes then
      Some(Decoded(num, i))
    else if i == |s| then
      None
    else
      var b := s[i];
      assert s[..i + 1] == s[..i] + [b];
      ValueSnoc(s[..i], b);
      var num' := num + (b % 128) * Pow128(i);
      if !Continues(b) then Some(Decoded(num', i + 1)) else UnpackFrom(s, i + 1, num')
  }

  /**
   * The reader: consumes bytes until one lacks the continuation bit or five
   * have been read, and returns the accumulated groups. Five continuation
   * bytes in a row are accepted without error. `None` when the input ends
   * first.
   */
  function Unpack(s: seq<byte>): (r: Option<Decoded>)
    ensures r.Some? ==> StopsAt(s, r.value.consumed) && r.value.value == Value(s[..r.value.consumed])
    ensures r.None? <==> Exhausted(s)
  {
    UnpackFrom(s, 0, 0)
  }

  /** Round trip: a number below 2^35 is read back from its encoding, whatever follows it. */
  lemma PackUnpack(n: nat, rest: seq<byte>)
    requires n < Pow128(MaxVarintBytes)
    ensures Unpack(Pack(n) + rest) == Some(Decoded(n, |Pack(n)|))
  {
    var p := Pack(n);
    var s := p + rest;
    PackLength(n, MaxVarintBytes);
    assert s[..|p|] == p;
    assert StopsAt(s, |p|);
    assert !Exhausted(s) by {
      assert !Continues(s[|p| - 1]);
    }
    var k := Unpack(s).value.consumed;
    StopsAtUnique(s, k, |p|);
  }

  /** The reader never reads past the fifth byte, and five continuation bytes end it. */
  lemma UnpackStopsAfterFive(s: seq<byte>)
    requires |s| >= MaxVarintBytes
    requires forall j :: 0 <= j < MaxVarintBytes ==> Continues(s[j])
    ensures Unpack(s) == Some(Decoded(Value(s[..MaxVarintBytes]), MaxVarintBytes))
  {
    assert StopsAt(s, MaxVarintBytes);
    var k := Unpack(s).value.consumed;
    StopsAtUnique(s, k, MaxVarintBytes);
  }

  /** A non-zero multiple of a positive number is at least that number away from zero. */
  lemma MulAwayFromZero(m: int, d: int)
    requires m > 0
    ensures d >= 1 ==> m * d >= m
    ensures d <= -1 ==> m * d <= -m
  {
  }

  /** Division with remainder is unique. */
  lemma ModUnique(n: int, m: int, q: int, r: int)
    requires m > 0 && n == m * q + r && 0 <= r < m
    ensures n % m == r
  {
    var d := n / m - q;
    assert m * d == r - n % m;
    MulAwayFromZero(m, d);
  }

  /** The low 7(k+1) bits of n are its low 7 bits below the low 7k bits of n >> 7. */
  lemma ModSplit(n: nat, p: nat)
    requires p >= 1
    ensures n % (128 * p) == n % 128 + 128 * ((n / 128) % p)
  {
    var q := n / 128;
    var q2 := q / p;
    var r1 := q % p;
    assert q == p * q2 + r1;
    assert n == (128 * p) * q2 + (n % 128 + 128 * r1);
    ModUnique(n, 128 * p, q2, n % 128 + 128 * r1);
  }

  /** The first k bytes of an encoding denote the low 7k bits of the number. */
  lemma {:induction false} PackPrefixValue(n: nat, k: nat)
    requires k <= |Pack(n)|
    ensures Value(Pack(n)[..k]) == n % Pow128(k)
    decreases n
  {
    if k > 0 {
      var remainder := n / 128;
      if remainder == 0 {
        assert Pack(n)[..k] == [n % 128];
      } else {
        PackPrefixHead(n, k);
        PackPrefixValue(remainder, k - 1);
        ModSplit(n, Pow128(k - 1));
      }
    }
  }

  /** The first k bytes of a multi-byte encoding: the low group, then k - 1 bytes of the rest. */
  lemma PackPrefixHead(n: nat, k: nat)
    requires n / 128 != 0
    requires 0 < k <= |Pack(n)|
    ensures Value(Pack(n)[..k]) == n % 128 + 128 * Value(Pack(n / 128)[..k - 1])
  {
    var low := n % 128;
    var tail := Pack(n / 128);
    var first: byte := low + 128;
    var rest := tail[..k - 1];
    assert Pack(n) == [first] + tail;
    Seqs.TakeCons(first, tail, k);
    ValueCons(first, rest);
    assert first % 128 == low;
  }

  /**
   * A number of 2^35 or more is encoded in more than five bytes; the reader
   * stops after five and returns only the low 35 bits.
   */
  lemma UnpackTruncatesLongVarint(n: nat, rest: seq<byte>)
    requires n >= Pow128(MaxVarintBytes)
    ensures Unpack(Pack(n) + rest) == Some(Decoded(n % Pow128(MaxVarintBytes), MaxVarintBytes))
  {
    var p := Pack(n);
    var s := p + rest;
    PackLength(n, MaxVarintBytes);
    assert s[..MaxVarintBytes] == p[..MaxVarintBytes];
    UnpackStopsAfterFive(s);
    PackPrefixValue(n, MaxVarintBytes);
  }
}
