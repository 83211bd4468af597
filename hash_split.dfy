/** How a 64-bit hash is split into a register index (its low `p` bits) and a rank (one more
    than the number of trailing zeros of the remaining high bits). */
module HashSplit {
  import opened Primitives

  /** Trailing zero bits of a non-zero pattern. */
  function TrailingZeros(w: nat): (r: nat)
    requires w > 0
    decreases w
  {
    if w % 2 == 1 then 0 else 1 + TrailingZeros(w / 2)
  }

  /** `TrailingZeros(w)` is the exponent of the largest power of two dividing `w`. */
  lemma {:induction false} TrailingZerosDivides(w: nat)
    requires w > 0
    ensures w % Pow2(TrailingZeros(w)) == 0
    ensures (w / Pow2(TrailingZeros(w))) % 2 == 1
  {
    if w % 2 == 0 {
      var x := w / 2;
      var t := TrailingZeros(x);
      TrailingZerosDivides(x);
      var d := Pow2(t);
      var q := x / d;
      ModZeroIsMultiple(x, d);
      DoubleMultiple(x, d, q);
      assert Pow2(t + 1) == 2 * d;
      DivideExactly(w, Pow2(t + 1), q);
    }
  }

  /** A non-zero pattern below `2^k` has fewer than `k` trailing zeros. */
  lemma {:induction false} TrailingZerosBelow(w: nat, k: nat)
    requires 0 < w < Pow2(k)
    ensures TrailingZeros(w) < k
  {
    assert k > 0;
    if w % 2 == 0 {
      TrailingZerosBelow(w / 2, k - 1);
    }
  }

  lemma {:induction false} TrailingZerosOfPow2(k: nat)
    ensures TrailingZeros(Pow2(k)) == k
  {
    if k > 0 {
      assert Pow2(k) % 2 == 0 && Pow2(k) / 2 == Pow2(k - 1);
      TrailingZerosOfPow2(k - 1);
    }
  }

  /** Java's `Long.numberOfTrailingZeros` on a 64-bit pattern: 64 for the zero pattern. */
  function NumberOfTrailingZeros(w: nat): (r: nat)
    requires w < TWO_64
    ensures r <= 64
    ensures r == 64 <==> w == 0
  {
    if w == 0 then 64
    else
      Pow2Of64();
      TrailingZerosBelow(w, 64);
      TrailingZeros(w)
  }

  /** `hashcode & (m - 1)` with `m == 2^p`: masking a two's-complement pattern with `2^p - 1`
      is the Euclidean remainder modulo `2^p`. */
  function RegisterIndex(hashcode: int64, p: nat): (idx: int)
    ensures 0 <= idx < Pow2(p)
  {
    hashcode as int % Pow2(p)
  }

  /** `hashcode >>> p`: the high `64 - p` bits, read as an unsigned value. */
  function ShiftedHash(hashcode: int64, p: nat): (w: nat)
    requires p < 64
  {
    DivNonNegative(Unsigned64(hashcode), Pow2(p));
    Unsigned64(hashcode) / Pow2(p)
  }

  /** `lr = Long.numberOfTrailingZeros(hashcode >>> p) + 1` */
  function Rank(hashcode: int64, p: nat): int
    requires p < 64
  {
    NumberOfTrailingZeros(ShiftedHash(hashcode, p)) + 1
  }

  /** The rank is at most `64 - p` when the shifted hash has a set bit, and 65 when it has none. */
  lemma RankBounds(hashcode: int64, p: nat)
    requires p < 64
    ensures ShiftedHash(hashcode, p) != 0 ==> 1 <= Rank(hashcode, p) <= 64 - p
    ensures ShiftedHash(hashcode, p) == 0 ==> Rank(hashcode, p) == 65
  {
    var w := ShiftedHash(hashcode, p);
    var u := Unsigned64(hashcode);
    Pow2Split64(p);
    DivBelow(u, Pow2(p), Pow2(64 - p));
    if w != 0 {
      TrailingZerosBelow(w, 64 - p);
    }
  }
}
