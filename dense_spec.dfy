/** The value-level meaning of a weighted dense register: what `set`, `merge`, the zero count,
    the low-bit extraction, the two replays and the rejection-sampling rule compute, as functions
    of the register's slots, with the properties the sketch relies on. */
module DenseSpec {
  import opened Primitives
  import opened HashSplit

  /** What a dense register holds: its byte slots and the cached largest value written to them. */
  datatype DenseState = DenseState(slots: seq<int8>, maxRegisterValue: int32)

  function Max8(a: int8, b: int8): int8
  {
    if b > a then b else a
  }

  function Max32(a: int32, b: int32): int32
  {
    if b > a then b else a
  }

  /** A freshly built register of `m` slots. */
  function FreshState(m: nat): (st: DenseState)
    ensures |st.slots| == m && CountZeroes(st.slots) == m
    ensures CacheCovers(st)
  {
    var st := DenseState(seq(m, _ => 0), 0);
    CountZeroesAll(st.slots);
    st
  }

  /** The cached maximum is at least every slot. */
  ghost predicate CacheCovers(st: DenseState)
  {
    forall i :: 0 <= i < |st.slots| ==> st.slots[i] as int <= st.maxRegisterValue as int
  }

  /** No slot is negative: the constructor zeroes every slot and both `set` and `merge` only
      ever raise one. */
  ghost predicate NonNegative(s: seq<int8>)
  {
    forall i :: 0 <= i < |s| ==> s[i] >= 0
  }

  // ---------------------------------------------------------------- set

  /** `set(idx, value)` with `idx >= 0` writes, and returns true, exactly in this case. */
  predicate SetRaises(st: DenseState, idx: nat, value: int8)
  {
    idx < |st.slots| && value > st.slots[idx]
  }

  /** The register after `set(idx, value)` with `idx >= 0`. */
  function AfterSet(st: DenseState, idx: nat, value: int8): DenseState
  {
    if SetRaises(st, idx, value) then
      DenseState(st.slots[idx := value],
                 if value as int > st.maxRegisterValue as int then value as int32 else st.maxRegisterValue)
    else st
  }

  /** `set` is a monotonic max on one slot; it reports true exactly when that slot changed. */
  lemma SetIsMonotonicMax(st: DenseState, idx: nat, value: int8)
    ensures |AfterSet(st, idx, value).slots| == |st.slots|
    ensures forall i :: 0 <= i < |st.slots| ==>
      AfterSet(st, idx, value).slots[i] == if i == idx then Max8(st.slots[i], value) else st.slots[i]
    ensures AfterSet(st, idx, value).maxRegisterValue ==
      if SetRaises(st, idx, value) then Max32(st.maxRegisterValue, value as int32) else st.maxRegisterValue
    ensures SetRaises(st, idx, value) <==> AfterSet(st, idx, value) != st
  {
    if SetRaises(st, idx, value) {
      assert AfterSet(st, idx, value).slots[idx] != st.slots[idx];
    }
  }

  lemma SetPreservesCover(st: DenseState, idx: nat, value: int8)
    requires CacheCovers(st)
    ensures CacheCovers(AfterSet(st, idx, value))
  {
  }

  // ---------------------------------------------------------------- merge

  /** The register after merging in a dense register of the same length. */
  function MergeState(st: DenseState, other: seq<int8>, otherMax: int32): (r: DenseState)
    requires |other| == |st.slots|
    ensures |r.slots| == |st.slots|
  {
    DenseState(seq(|other|, i requires 0 <= i < |other| => Max8(st.slots[i], other[i])),
               if otherMax > st.maxRegisterValue then otherMax else st.maxRegisterValue)
  }

  /** Merging never lowers a slot: each becomes the larger of the two, and so does the cache. */
  lemma MergeIsSlotwiseMax(st: DenseState, other: seq<int8>, otherMax: int32)
    requires |other| == |st.slots|
    ensures forall i :: 0 <= i < |other| ==>
      var v := MergeState(st, other, otherMax).slots[i];
      v >= st.slots[i] && v >= other[i] && (v == st.slots[i] || v == other[i])
    ensures MergeState(st, other, otherMax).maxRegisterValue == Max32(st.maxRegisterValue, otherMax)
  {
  }

  lemma MergeCommutes(a: DenseState, b: DenseState)
    requires |a.slots| == |b.slots|
    ensures MergeState(a, b.slots, b.maxRegisterValue) == MergeState(b, a.slots, a.maxRegisterValue)
  {
    var ab := MergeState(a, b.slots, b.maxRegisterValue);
    var ba := MergeState(b, a.slots, a.maxRegisterValue);
    assert ab.slots == ba.slots;
  }

  /** Merging a register equal to this one changes nothing. */
  lemma MergeWithEqualIsNoOp(a: DenseState)
    ensures MergeState(a, a.slots, a.maxRegisterValue) == a
  {
    assert MergeState(a, a.slots, a.maxRegisterValue).slots == a.slots;
  }

  lemma MergeAssociates(a: DenseState, b: DenseState, c: DenseState)
    requires |a.slots| == |b.slots| == |c.slots|
    ensures var bc := MergeState(b, c.slots, c.maxRegisterValue);
            var ab := MergeState(a, b.slots, b.maxRegisterValue);
            MergeState(a, bc.slots, bc.maxRegisterValue) == MergeState(ab, c.slots, c.maxRegisterValue)
  {
    var bc := MergeState(b, c.slots, c.maxRegisterValue);
    var ab := MergeState(a, b.slots, b.maxRegisterValue);
    assert MergeState(a, bc.slots, bc.maxRegisterValue).slots == MergeState(ab, c.slots, c.maxRegisterValue).slots;
  }

  lemma MergePreservesCover(a: DenseState, b: DenseState)
    requires |a.slots| == |b.slots| && CacheCovers(a) && CacheCovers(b)
    ensures CacheCovers(MergeState(a, b.slots, b.maxRegisterValue))
  {
  }

  // ---------------------------------------------------------------- zero count

  /** The number of zero slots, counted over the slots in index order. */
  function CountZeroes(s: seq<int8>): (n: nat)
    ensures n <= |s|
  {
    if |s| == 0 then 0
    else CountZeroes(s[..|s| - 1]) + (if s[|s| - 1] == 0 then 1 else 0)
  }

  /** Every slot is zero exactly when the zero count is the size; none is when it is zero. */
  lemma {:induction false} CountZeroesAll(s: seq<int8>)
    ensures CountZeroes(s) == |s| <==> forall i :: 0 <= i < |s| ==> s[i] == 0
    ensures CountZeroes(s) == 0 <==> forall i :: 0 <= i < |s| ==> s[i] != 0
  {
    if |s| > 0 {
      var s' := s[..|s| - 1];
      CountZeroesAll(s');
      assert forall i :: 0 <= i < |s'| ==> s'[i] == s[i];
      if CountZeroes(s) == |s| {
        assert CountZeroes(s') == |s'| && s[|s| - 1] == 0;
      }
      if CountZeroes(s) == 0 {
        assert CountZeroes(s') == 0 && s[|s| - 1] != 0;
      }
    }
  }

  // ---------------------------------------------------------------- low-bit extraction

  /** The indices of the non-zero slots, in increasing order. */
  function NonZeroIndices(s: seq<int8>): seq<nat>
  {
    if |s| == 0 then []
    else NonZeroIndices(s[..|s| - 1]) + (if s[|s| - 1] != 0 then [|s| - 1] else [])
  }

  /** Only non-zero slots are listed; with the zero slots they make up the whole register. */
  lemma {:induction false} NonZeroIndicesListed(s: seq<int8>)
    ensures forall k :: 0 <= k < |NonZeroIndices(s)| ==>
      NonZeroIndices(s)[k] < |s| && s[NonZeroIndices(s)[k]] != 0
    ensures |NonZeroIndices(s)| + CountZeroes(s) == |s|
  {
    if |s| > 0 {
      var s' := s[..|s| - 1];
      NonZeroIndicesListed(s');
      assert forall i :: 0 <= i < |s'| ==> s'[i] == s[i];
    }
  }

  /** The slots are listed in strictly increasing order, so each at most once. */
  lemma {:induction false} NonZeroIndicesIncreasing(s: seq<int8>)
    ensures forall k, l :: 0 <= k < l < |NonZeroIndices(s)| ==> NonZeroIndices(s)[k] < NonZeroIndices(s)[l]
  {
    if |s| > 0 {
      var s' := s[..|s| - 1];
      NonZeroIndicesIncreasing(s');
      NonZeroIndicesListed(s');
    }
  }

  /** Every non-zero slot is listed. */
  lemma {:induction false} NonZeroIndicesComplete(s: seq<int8>)
    ensures forall i :: 0 <= i < |s| && s[i] != 0 ==> i in NonZeroIndices(s)
  {
    if |s| > 0 {
      var s' := s[..|s| - 1];
      NonZeroIndicesComplete(s');
      var ix', ix := NonZeroIndices(s'), NonZeroIndices(s);
      forall i | 0 <= i < |s| && s[i] != 0
        ensures i in ix
      {
        if i < |s'| {
          assert s'[i] == s[i] && i in ix';
        } else {
          assert ix[|ix| - 1] == i;
        }
      }
    }
  }

  /** The hash `(long) ((1 << (p + lr - 1)) | idx)` handed on for the slot `idx` holding `lr`,
      in Java `int` arithmetic. */
  function LowBitsHash(p: nat, lr: int8, idx: nat): int64
    requires p <= 30 && idx < TWO_31
  {
    IntOr(IntShiftLeft(1, p + lr as int - 1), idx as int32) as int64
  }

  /** The hashes handed on, one per non-zero slot, in slot order. */
  function LowBitsCalls(s: seq<int8>, p: nat): seq<int64>
    requires p <= 30 && |s| <= TWO_31
  {
    if |s| == 0 then []
    else LowBitsCalls(s[..|s| - 1], p)
         + (if s[|s| - 1] != 0 then [LowBitsHash(p, s[|s| - 1], |s| - 1)] else [])
  }

  /** The k-th hash handed on belongs to the k-th non-zero slot. */
  lemma {:induction false} LowBitsCallsAt(s: seq<int8>, p: nat)
    requires p <= 30 && |s| <= TWO_31
    ensures |LowBitsCalls(s, p)| == |NonZeroIndices(s)|
    ensures forall k :: 0 <= k < |LowBitsCalls(s, p)| ==>
      NonZeroIndices(s)[k] < |s| &&
      LowBitsCalls(s, p)[k] == LowBitsHash(p, s[NonZeroIndices(s)[k]], NonZeroIndices(s)[k])
  {
    if |s| > 0 {
      var s' := s[..|s| - 1];
      LowBitsCallsAt(s', p);
      NonZeroIndicesListed(s');
      var calls, ix := LowBitsCalls(s, p), NonZeroIndices(s);
      var calls', ix' := LowBitsCalls(s', p), NonZeroIndices(s');
      forall k | 0 <= k < |calls|
        ensures ix[k] < |s| && calls[k] == LowBitsHash(p, s[ix[k]], ix[k])
      {
        if k < |calls'| {
          assert calls[k] == calls'[k] && ix[k] == ix'[k];
          assert s[ix[k]] == s'[ix[k]];
        }
      }
    }
  }

  /** A hash whose value is `2^k + idx`, with `idx` below `2^p <= 2^k`, has index `idx` and
      rank `k - p + 1`. */
  lemma SplitOfPow2Sum(h: int64, p: nat, k: nat, idx: nat)
    requires idx < Pow2(p) && p <= k < 64 && h as int == Pow2(k) + idx
    ensures h >= 0 && RegisterIndex(h, p) == idx && Rank(h, p) == k - p + 1
  {
    var e := k - p;
    Pow2Add(p, e);
    DivModUnique(h as int, Pow2(p), Pow2(e), idx);
    assert Unsigned64(h) == h as int;
    assert ShiftedHash(h, p) == Pow2(e);
    TrailingZerosOfPow2(e);
    Pow2BelowLong(e);
  }

  /** `(1 << k) | idx` with `idx < 2^k <= 2^30` is `2^k + idx`. */
  lemma ShiftOrValue(k: nat, idx: nat)
    requires k <= 30 && idx < Pow2(k)
    ensures idx < TWO_31
    ensures IntOr(IntShiftLeft(1, k), idx as int32) as int == Pow2(k) + idx
  {
    Pow2BelowInt(k);
    IntShiftLeftOne(k);
    BitOrBelowPow2(k, idx);
    IntOrNonNegative(IntShiftLeft(1, k), idx as int32);
  }

  /** Below the sign bit the shift and the or are plain arithmetic: `2^(p + lr - 1) + idx`. */
  lemma LowBitsHashValue(p: nat, lr: int8, idx: nat)
    requires 1 <= lr as int && p + lr as int - 1 <= 30 && idx < Pow2(p)
    ensures idx < TWO_31
    ensures LowBitsHash(p, lr, idx) as int == Pow2(p + lr as int - 1) + idx
  {
    var k := p + lr as int - 1;
    Pow2Monotonic(p, k);
    ShiftOrValue(k, idx);
  }

  /** When `p + lr - 1` stays below the sign bit, the hash handed on for slot `idx` holding `lr`
      splits back into index `idx` and rank `lr`. */
  lemma LowBitsRoundTrip(p: nat, lr: int8, idx: nat)
    requires 1 <= lr as int && p + lr as int - 1 <= 30 && idx < Pow2(p)
    ensures idx < TWO_31
    ensures LowBitsHash(p, lr, idx) >= 0
    ensures RegisterIndex(LowBitsHash(p, lr, idx), p) == idx
    ensures Rank(LowBitsHash(p, lr, idx), p) == lr as int
  {
    LowBitsHashValue(p, lr, idx);
    SplitOfPow2Sum(LowBitsHash(p, lr, idx), p, p + lr as int - 1, idx);
  }

  /** Past the sign bit the `int` shift distance wraps: with `p = 14` the slot 0 holding 19 is
      handed on as the hash 1, which splits into slot 1 and rank 65. */
  lemma LowBitsShiftWraps()
    ensures LowBitsHash(14, 19, 0) == 1
    ensures RegisterIndex(1, 14) == 1 && Rank(1, 14) == 65
  {
    assert IntShiftLeft(1, 32) == 1;
    Pow2Monotonic(1, 14);
  }

  /** A slot holding 65, the rank of a hash whose bits above the index are all zero, has
      `p + 64` as its shift distance, which wraps to `p`: it is handed on as `2^p + idx`, which
      splits back into its own slot but with rank 1. */
  lemma LowBitsTopRankWraps(p: nat, idx: nat)
    requires p <= 30 && idx < Pow2(p)
    ensures idx < TWO_31
    ensures LowBitsHash(p, 65, idx) as int == Pow2(p) + idx
    ensures RegisterIndex(LowBitsHash(p, 65, idx), p) == idx && Rank(LowBitsHash(p, 65, idx), p) == 1
  {
    assert (p + 64) % 32 == p % 32;
    assert IntShiftLeft(1, p + 64) == IntShiftLeft(1, p);
    ShiftOrValue(p, idx);
    SplitOfPow2Sum(LowBitsHash(p, 65, idx), p, p, idx);
  }

  /** With `p = 14`, the slot 0 holding 65 is handed on as the hash 16384: slot 0 again, but
      with rank 1. */
  lemma LowBitsTopRankExample()
    ensures LowBitsHash(14, 65, 0) == 16384
    ensures RegisterIndex(16384, 14) == 0 && Rank(16384, 14) == 1
  {
    Pow2Monotonic(0, 14);
    LowBitsTopRankWraps(14, 0);
    Pow2Of16();
    Pow2Add(14, 2);
    assert Pow2(2) == 4;
  }

  // ---------------------------------------------------------------- replays

  /** The register after `set(i, reg[i])` for every `i` in order. */
  function ReplayBytes(st: DenseState, reg: seq<int8>): DenseState
  {
    if |reg| == 0 then st
    else AfterSet(ReplayBytes(st, reg[..|reg| - 1]), |reg| - 1, reg[|reg| - 1])
  }

  /** Replaying a byte array raises slot `i` to `reg[i]` where both exist and ignores the rest. */
  lemma {:induction false} ReplayBytesIsSlotwiseMax(st: DenseState, reg: seq<int8>)
    ensures |ReplayBytes(st, reg).slots| == |st.slots|
    ensures forall i :: 0 <= i < |st.slots| ==>
      ReplayBytes(st, reg).slots[i] == if i < |reg| then Max8(st.slots[i], reg[i]) else st.slots[i]
  {
    if |reg| > 0 {
      var reg' := reg[..|reg| - 1];
      ReplayBytesIsSlotwiseMax(st, reg');
      SetIsMonotonicMax(ReplayBytes(st, reg'), |reg| - 1, reg[|reg| - 1]);
    }
  }

  /** Replaying a register's own bytes into a fresh register of the same size gives back those
      bytes, since none is negative: this is what restores a serialized dense register. */
  lemma ReplayIntoFreshRestores(s: seq<int8>)
    requires NonNegative(s)
    ensures ReplayBytes(FreshState(|s|), s).slots == s
  {
    var st := FreshState(|s|);
    ReplayBytesIsSlotwiseMax(st, s);
    assert forall i :: 0 <= i < |s| ==> st.slots[i] == 0;
  }

  /** A negative byte is never written over a fresh slot, so without `NonNegative` the replay
      does not restore the bytes. */
  lemma ReplayDropsNegativeBytes()
    ensures ReplayBytes(FreshState(1), [-1]).slots == [0]
  {
    assert [-1 as int8][..0] == [];
  }

  /** The register after `set(key & ((1 << p) - 1), value)` for every sparse entry in order. */
  function ReplayEntries(st: DenseState, entries: seq<(int32, int8)>, p: nat): DenseState
  {
    if |entries| == 0 then st
    else
      var (key, value) := entries[|entries| - 1];
      AfterSet(ReplayEntries(st, entries[..|entries| - 1], p), key as int % Pow2(p), value)
  }

  /** Replaying sparse entries leaves each slot at the largest of its old value and the values
      of the entries whose key masks to it. */
  lemma {:induction false} ReplayEntriesIsMax(st: DenseState, entries: seq<(int32, int8)>, p: nat, j: nat)
    requires j < |st.slots|
    ensures |ReplayEntries(st, entries, p).slots| == |st.slots|
    ensures var v := ReplayEntries(st, entries, p).slots[j];
      && v >= st.slots[j]
      && (forall k :: 0 <= k < |entries| && entries[k].0 as int % Pow2(p) == j ==> v >= entries[k].1)
      && (v == st.slots[j] ||
          exists k :: 0 <= k < |entries| && entries[k].0 as int % Pow2(p) == j && entries[k].1 == v)
  {
    if |entries| > 0 {
      var e' := entries[..|entries| - 1];
      ReplayEntriesIsMax(st, e', p, j);
      var (key, value) := entries[|entries| - 1];
      SetIsMonotonicMax(ReplayEntries(st, e', p), key as int % Pow2(p), value);
      assert forall k :: 0 <= k < |e'| ==> e'[k] == entries[k];
      var v' := ReplayEntries(st, e', p).slots[j];
      var v := ReplayEntries(st, entries, p).slots[j];
      if v != st.slots[j] && v != v' {
        assert entries[|entries| - 1].1 == v;
      } else if v != st.slots[j] {
        var k :| 0 <= k < |e'| && e'[k].0 as int % Pow2(p) == j && e'[k].1 == v';
        assert entries[k].1 == v;
      }
    }
  }

  // ---------------------------------------------------------------- weighted rank

  /** The acceptance probability `computePi(lr, i, weight)` is left uninterpreted; raising any base
      to the power `weight - 1 == 0` gives 1, so at unit weight it is 1 for every trial. */
  ghost predicate UnitWeightPiIsOne(pi: (int, int, real) -> real)
  {
    forall lr: int, i: int :: pi(lr, i, 1.0) == 1.0
  }

  /** Some draw, at the trial of its own position, is accepted (`f <= p_i`). */
  predicate SomeDrawAccepts(draws: seq<real>, lr: int, weight: real, pi: (int, int, real) -> real)
  {
    exists k :: 0 <= k < |draws| && draws[k] <= pi(lr, k, weight)
  }

  function FirstAcceptFrom(draws: seq<real>, lr: int, weight: real, pi: (int, int, real) -> real, i: nat): (k: nat)
    requires exists j :: i <= j < |draws| && draws[j] <= pi(lr, j, weight)
    ensures i <= k < |draws| && draws[k] <= pi(lr, k, weight)
    ensures forall j :: i <= j < k ==> draws[j] > pi(lr, j, weight)
    decreases |draws| - i
  {
    if draws[i] <= pi(lr, i, weight) then i
    else FirstAcceptFrom(draws, lr, weight, pi, i + 1)
  }

  /** The number of rejected draws: the position of the first accepted one. */
  function FirstAccept(draws: seq<real>, lr: int, weight: real, pi: (int, int, real) -> real): (k: nat)
    requires SomeDrawAccepts(draws, lr, weight, pi)
    ensures k < |draws| && draws[k] <= pi(lr, k, weight)
    ensures forall j :: 0 <= j < k ==> draws[j] > pi(lr, j, weight)
  {
    FirstAcceptFrom(draws, lr, weight, pi, 0)
  }

  /** The byte `my_add` writes: `(byte) (lr + i)`, with `i` the number of rejected draws. */
  function WeightedValue(hashcode: int64, p: nat, weight: real, draws: seq<real>, pi: (int, int, real) -> real): int8
    requires p < 64 && SomeDrawAccepts(draws, Rank(hashcode, p), weight, pi)
  {
    ToByte(Rank(hashcode, p) + FirstAccept(draws, Rank(hashcode, p), weight, pi))
  }

  /** At unit weight the first draw in [0,1) is accepted and the value written is the plain rank,
      exactly as in the unweighted update. */
  lemma UnitWeightWritesRank(hashcode: int64, p: nat, draws: seq<real>, pi: (int, int, real) -> real)
    requires p < 64 && UnitWeightPiIsOne(pi)
    requires |draws| > 0 && 0.0 <= draws[0] < 1.0
    ensures SomeDrawAccepts(draws, Rank(hashcode, p), 1.0, pi)
    ensures WeightedValue(hashcode, p, 1.0, draws, pi) as int == Rank(hashcode, p)
  {
    var lr := Rank(hashcode, p);
    assert draws[0] <= pi(lr, 0, 1.0);
    RankBounds(hashcode, p);
  }

  // ---------------------------------------------------------------- hash code

  /** `Arrays.hashCode(byte[])`: `31 * result + element` from 1, in `int` arithmetic. */
  function ArraysHashCode(s: seq<int8>): int32
  {
    if |s| == 0 then 1
    else ToInt32(31 * ArraysHashCode(s[..|s| - 1]) as int + s[|s| - 1] as int)
  }

  /** `hashCode()`: from 0, add `31 * numZeroes`, then `31 * maxRegisterValue`, then
      `Arrays.hashCode(register)`, every step in `int` arithmetic. The result is the exact sum of
      the three terms wrapped once. */
  function HashOf(st: DenseState): (h: int32)
    ensures h == ToInt32(31 * CountZeroes(st.slots) + 31 * st.maxRegisterValue as int
                         + ArraysHashCode(st.slots) as int)
  {
    var zeroes := CountZeroes(st.slots);
    HashSumWrapsOnce(zeroes, st.maxRegisterValue, ArraysHashCode(st.slots));
    IntAdd(IntAdd(IntAdd(0, IntMul(31, ToInt32(zeroes))), IntMul(31, st.maxRegisterValue)),
           ArraysHashCode(st.slots))
  }

  /** The three wrapping additions of `hashCode()` agree with one wrap of the exact sum. */
  lemma HashSumWrapsOnce(zeroes: int, maxValue: int32, arrays: int32)
    ensures IntAdd(IntAdd(IntAdd(0, IntMul(31, ToInt32(zeroes))), IntMul(31, maxValue)), arrays)
            == ToInt32(31 * zeroes + 31 * maxValue as int + arrays as int)
  {
    var z, x := 31 * zeroes, 31 * maxValue as int;
    WrapTimes31(zeroes);
    var h0 := IntAdd(0, IntMul(31, ToInt32(zeroes)));
    WrapAdd(z, 0);
    assert h0 == ToInt32(z);
    var h1 := IntAdd(h0, IntMul(31, maxValue));
    WrapAdd(x, h0 as int);
    WrapAdd(z, x);
    assert h1 == ToInt32(z + x);
    WrapAdd(z + x, arrays as int);
  }
}
