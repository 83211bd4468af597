# Weighted HyperLogLog: dense register and sketch

This project is a Dafny model of the core of a weighted HyperLogLog sketch written in Java. The
core is two classes:

- `WHLLDenseRegister` holds `m = 2^p` byte slots. Each slot is raised by a monotonic max, either
  by `set` or by `merge`.
  - `my_add` is the weighted update. It splits a 64-bit hash into a slot index (the low `p` bits)
    and a rank `lr` (one more than the number of trailing zeros of the remaining bits). Then it
    runs a rejection loop over random draws and writes `lr` plus the number of rejected draws.
  - `extractLowBitsTo` turns every non-zero slot back into a hash.
- `WeightedHyperLogLog` owns one dense register. It also holds the count cache
  (`cachedCount`, `invalidateCount`) and an `encoding` field.

Module layout:

- `Primitives` (`primitives.dfy`) writes out Java's fixed-width integers over unbounded `int`:
  `int8`, `int32` and `int64`, the narrowing casts, `int` shifts, `|` and `/`, and the unsigned
  reading of a `long`. It also defines how a call ends: it returns a value or throws
  `IllegalArgumentException` or `ArrayIndexOutOfBoundsException`.
- `HashSplit` (`hash_split.dfy`) gives the slot index and the rank of a hash.
- `DenseSpec` (`dense_spec.dfy`) gives the value-level meaning of the register, with the
  properties proved about it:
  - `set`, `merge`, the zero count and the low-bit extraction;
  - the two replays used by the sketch;
  - the rejection rule of `my_add`;
  - `hashCode`.
- `WHLLDense` (`whll_dense_register.dfy`) is the register class, over an `array<int8>`. Every
  method is proved against the functions of `DenseSpec`.
- `WeightedHLL` (`weighted_hyperloglog.dfy`) is the sketch class. It also holds the builder, the
  switch threshold, the encoding enums and the count cache as a pure step function.

The seams the model abstracts:

- The random draws of `my_add` are a sequence `draws` of reals. The caller guarantees that some
  draw is accepted.
- `computePi` is a function parameter `pi`. Its one property used here is that it is 1 at weight
  1, because `Math.pow(x, 0) == 1`.
- The floating-point estimate computed by `count()` is a function parameter `estimate` of the
  register bytes.
- The destination register of `extractLowBitsTo` is not modelled. The method returns the sequence
  of hashes it would pass to `dest.add`.

What the code does, where it differs from how it reads:

- The encoding test never holds. The `encoding` field has the sketch's own enum type. Every test
  compares it with the constants of `HyperLogLog.EncodingType`, a different enum, so `equals` is
  always false. As a result:
  - the constructor always builds a dense register and leaves `sparseRegister` null;
  - `add` and `count` always take the dense branch;
  - the SPARSE-to-DENSE switch inside `add` cannot be reached.

  The model keeps the tests and places `assert false` in the branches that cannot be taken.
  Because of this, `denseRegister` and `sparseRegister` are `const` fields: only that dead
  switch assigns them.
- A hash whose bits above the index are all zero gets rank 65, that is
  `numberOfTrailingZeros(0) + 1`, whatever `p` is.
- Without bit packing, the switch threshold at `p = 14` is `16384 / 3 = 5461`. The comment beside
  it says 3200. With bit packing it is 2457.
- In `extractLowBitsTo` the shift `1 << (p + lr - 1)` is an `int` shift, so its distance wraps
  modulo 32. While `p + lr - 1 <= 30`, the hash it produces splits back into the same slot and
  rank (`LowBitsRoundTrip`). Past that the hash splits into a different slot or a different
  rank. With `p = 14`, slot 0 holding 19 becomes hash 1, which is slot 1 with rank 65
  (`LowBitsShiftWraps`). A slot holding 65 always has `p + 64 >= 32`: the distance wraps to `p`,
  so the hash is `2^p + idx`, which comes back to its own slot with rank 1
  (`LowBitsTopRankWraps`). For example, with `p = 14` slot 0 holding 65 becomes hash 16384,
  which is slot 0 with rank 1 (`LowBitsTopRankExample`).
- A register never holds a negative slot: the constructor zeroes every slot, and `set` and
  `merge` only raise one. So replaying a register's own bytes into a fresh register gives those
  bytes back (`ReplayIntoFreshRestores`), which is what restoring a serialized dense sketch
  through `setHLLDenseRegister` relies on.

## Model

| member | source | states |
|---|---|---|
| Primitives.IntShiftLeftOne | src/java/com/github/prasanthj/hll/WeightedHyperLogLog.java:93 | `1 << s` on `int` equals `2^s` for every `s <= 30`, so `m = 1 << p` is `2^p` |
| HashSplit.RegisterIndex | src/java/com/github/prasanthj/hll/WHLLDenseRegister.java:90 | the slot index `hashcode & (m - 1)` lies in `[0, 2^p)` for every hash, negative ones included |
| HashSplit.NumberOfTrailingZeros | src/java/com/github/prasanthj/hll/WHLLDenseRegister.java:94 | `Long.numberOfTrailingZeros` is at most 64, and exactly 64 iff the pattern is zero |
| HashSplit.TrailingZerosDivides | src/java/com/github/prasanthj/hll/WHLLDenseRegister.java:94 | the trailing-zero count of a non-zero pattern is the exponent of the largest power of two dividing it |
| HashSplit.RankBounds | src/java/com/github/prasanthj/hll/WHLLDenseRegister.java:92-94 | `1 <= lr <= 64 - p` when the shifted hash is non-zero, and `lr == 65` when it is zero |
| DenseSpec.FreshState | src/java/com/github/prasanthj/hll/WHLLDenseRegister.java:23-30 | a new register has `m` slots, all zero, and its cached maximum covers every slot |
| DenseSpec.SetIsMonotonicMax | src/java/com/github/prasanthj/hll/WHLLDenseRegister.java:144-159 | `set(idx, v)` leaves every other slot alone and sets slot `idx` to `max(old, v)`; it raises the cached maximum to `v` when larger; it changes the register iff `idx < length && v > register[idx]` |
| DenseSpec.SetPreservesCover | src/java/com/github/prasanthj/hll/WHLLDenseRegister.java:146-154 | after `set`, the cached maximum is still at least every slot |
| DenseSpec.MergeState | src/java/com/github/prasanthj/hll/WHLLDenseRegister.java:186-196 | merging equal-length registers keeps the length |
| DenseSpec.MergeIsSlotwiseMax | src/java/com/github/prasanthj/hll/WHLLDenseRegister.java:186-196 | after `merge`, each slot is the larger of the two slots, so no slot is lowered; the cache is the larger of the two caches |
| DenseSpec.MergeCommutes | src/java/com/github/prasanthj/hll/WHLLDenseRegister.java:175-200 | merging `b` into `a` gives the same contents as merging `a` into `b` |
| DenseSpec.MergeWithEqualIsNoOp | src/java/com/github/prasanthj/hll/WHLLDenseRegister.java:175-200 | merging a register with equal contents changes nothing |
| DenseSpec.MergeAssociates | src/java/com/github/prasanthj/hll/WHLLDenseRegister.java:175-200 | merging is associative on contents |
| DenseSpec.MergePreservesCover | src/java/com/github/prasanthj/hll/WHLLDenseRegister.java:186-196 | if both caches cover their slots, the merged cache covers the merged slots |
| DenseSpec.CountZeroes | src/java/com/github/prasanthj/hll/WHLLDenseRegister.java:165-173 | the zero count lies in `[0, size]` |
| DenseSpec.CountZeroesAll | src/java/com/github/prasanthj/hll/WHLLDenseRegister.java:165-173 | the zero count equals the size iff every slot is zero, and is 0 iff no slot is |
| DenseSpec.NonZeroIndicesListed | src/java/com/github/prasanthj/hll/WHLLDenseRegister.java:135-142 | only non-zero slots are visited, and the visited count plus the zero count is the size |
| DenseSpec.NonZeroIndicesIncreasing | src/java/com/github/prasanthj/hll/WHLLDenseRegister.java:136 | the non-zero slots are visited in strictly increasing index order, so each at most once |
| DenseSpec.NonZeroIndicesComplete | src/java/com/github/prasanthj/hll/WHLLDenseRegister.java:135-142 | every non-zero slot is visited |
| DenseSpec.LowBitsCallsAt | src/java/com/github/prasanthj/hll/WHLLDenseRegister.java:135-142 | `extractLowBitsTo` makes one `dest.add` call per non-zero slot; the k-th call carries the hash of the k-th non-zero slot |
| DenseSpec.SplitOfPow2Sum | src/java/com/github/prasanthj/hll/WHLLDenseRegister.java:90-94 | a hash of value `2^k + idx`, with `idx < 2^p <= 2^k`, splits into slot `idx` and rank `k - p + 1` |
| DenseSpec.ShiftOrValue | src/java/com/github/prasanthj/hll/WHLLDenseRegister.java:139 | `(1 << k) \| idx` on `int`, with `idx < 2^k <= 2^30`, is `2^k + idx` |
| DenseSpec.LowBitsHashValue | src/java/com/github/prasanthj/hll/WHLLDenseRegister.java:139 | while `p + lr - 1 <= 30`, the `int` shift and or produce exactly `2^(p + lr - 1) + idx` |
| DenseSpec.LowBitsRoundTrip | src/java/com/github/prasanthj/hll/WHLLDenseRegister.java:115-142 | while `p + lr - 1 <= 30`, the hash produced for slot `idx` holding `lr` is non-negative and splits back, under `my_add`'s index and rank, into `idx` and `lr` |
| DenseSpec.LowBitsShiftWraps | src/java/com/github/prasanthj/hll/WHLLDenseRegister.java:139 | beyond that bound the shift distance wraps: with `p = 14`, slot 0 holding 19 yields hash 1, which is slot 1 with rank 65 |
| DenseSpec.LowBitsTopRankWraps | src/java/com/github/prasanthj/hll/WHLLDenseRegister.java:139 | for every `p <= 30`, a slot `idx` holding the rank 65 yields the hash `2^p + idx`, which splits back into slot `idx` with rank 1, not 65 |
| DenseSpec.LowBitsTopRankExample | src/java/com/github/prasanthj/hll/WHLLDenseRegister.java:139 | with `p = 14`, slot 0 holding 65 yields hash 16384, which is slot 0 with rank 1 |
| DenseSpec.ReplayBytesIsSlotwiseMax | src/java/com/github/prasanthj/hll/WeightedHyperLogLog.java:375-381 | replaying a byte array leaves slot `i < min(length, m)` at `max(old, reg[i])`; bytes beyond `m` are ignored and other slots are unchanged |
| DenseSpec.ReplayIntoFreshRestores | src/java/com/github/prasanthj/hll/WeightedHyperLogLog.java:375-381 | replaying a sequence of non-negative bytes into a fresh register of the same size gives back exactly those bytes |
| DenseSpec.ReplayDropsNegativeBytes | src/java/com/github/prasanthj/hll/WeightedHyperLogLog.java:375-381 | a negative byte is not written over a zero slot, so the restoring replay needs non-negative slots |
| DenseSpec.ReplayEntriesIsMax | src/java/com/github/prasanthj/hll/WeightedHyperLogLog.java:394-401 | after replaying sparse entries, slot `j` is at least its old value and at least every entry whose masked key is `j`, and equals its old value or one of those entries |
| DenseSpec.FirstAcceptFrom | src/java/com/github/prasanthj/hll/WHLLDenseRegister.java:98-111 | the rejection loop stops at an accepted draw, and every draw it passed was rejected (`f > p_i`) |
| DenseSpec.FirstAccept | src/java/com/github/prasanthj/hll/WHLLDenseRegister.java:98-111 | the number of rejected draws is the index of the first accepted one |
| DenseSpec.UnitWeightWritesRank | src/java/com/github/prasanthj/hll/WHLLDenseRegister.java:98-134 | at weight 1 the first draw in `[0, 1)` is accepted, so `my_add` writes exactly `lr` |
| WHLLDense.WHLLDenseRegister.constructor | src/java/com/github/prasanthj/hll/WHLLDenseRegister.java:23-30 | a new register has `2^p` zero slots and a cached maximum of 0, so its invariant (no negative slot) holds |
| WHLLDense.WHLLDenseRegister.Set | src/java/com/github/prasanthj/hll/WHLLDenseRegister.java:144-159 | a negative index throws `ArrayIndexOutOfBoundsException` with nothing changed; otherwise the new state is the monotonic-max write and the result says whether it wrote; no slot becomes negative |
| WHLLDense.WHLLDenseRegister.Size | src/java/com/github/prasanthj/hll/WHLLDenseRegister.java:161-163 | `size()` is `m = 2^p` |
| WHLLDense.WHLLDenseRegister.GetNumZeroes | src/java/com/github/prasanthj/hll/WHLLDenseRegister.java:165-173 | the loop returns the number of zero slots, which is at most `size()` |
| WHLLDense.WHLLDenseRegister.Merge | src/java/com/github/prasanthj/hll/WHLLDenseRegister.java:175-200 | a non-dense argument or a length mismatch throws `IllegalArgumentException` with nothing changed; otherwise the loop leaves the slot-wise max and the larger cache; no slot becomes negative |
| WHLLDense.WHLLDenseRegister.MyAdd | src/java/com/github/prasanthj/hll/WHLLDenseRegister.java:85-114 | `weight <= 0` throws before any change; otherwise `(byte) (lr + i)` is written through `set` at the hash's slot, where `i` is the number of rejected draws, and `set`'s result is returned |
| WHLLDense.WHLLDenseRegister.ExtractLowBitsTo | src/java/com/github/prasanthj/hll/WHLLDenseRegister.java:135-142 | the loop emits exactly the low-bit hashes of the non-zero slots, in slot order |
| WHLLDense.WHLLDenseRegister.Equals | src/java/com/github/prasanthj/hll/WHLLDenseRegister.java:239-247 | `equals` holds iff the argument is a dense register with the same bytes and cached maximum; the zero-count test adds nothing |
| DenseSpec.HashOf | src/java/com/github/prasanthj/hll/WHLLDenseRegister.java:249-256 | the three wrapping `int` steps of `hashCode` (each `31 *` and each `+=`) give the exact sum `31 * numZeroes + 31 * maxRegisterValue + Arrays.hashCode(register)` wrapped once |
| DenseSpec.HashSumWrapsOnce | src/java/com/github/prasanthj/hll/WHLLDenseRegister.java:251-254 | wrapping after every `int` step of that sum equals wrapping the exact sum once |
| WHLLDense.WHLLDenseRegister.HashCode | src/java/com/github/prasanthj/hll/WHLLDenseRegister.java:249-256 | the register's `hashCode` is its zero count, cached maximum and `Arrays.hashCode` combined as above, wrapped once to `int` |
| WHLLDense.EqualRegistersHashEqually | src/java/com/github/prasanthj/hll/WHLLDenseRegister.java:239-256 | `equals` is symmetric, and equal registers have equal `hashCode` |
| WeightedHLL.EncodingTestNeverHolds | src/java/com/github/prasanthj/hll/WeightedHyperLogLog.java:18-20 | the sketch's own encoding never equals `HyperLogLog.EncodingType.SPARSE` or `DENSE` |
| WeightedHLL.EncodingSwitchThreshold | src/java/com/github/prasanthj/hll/WeightedHyperLogLog.java:102-109 | with bit packing the threshold is the largest `t` with `40 t <= 6 m` while `6 m` fits in an `int`; without, the largest `t` with `3 t <= m` |
| WeightedHLL.DefaultThresholds | src/java/com/github/prasanthj/hll/WeightedHyperLogLog.java:52-109 | with the default `p = 14`, `m = 16384` and the threshold is 2457 with bit packing and 5461 without |
| WeightedHLL.CountClearsFlag | src/java/com/github/prasanthj/hll/WeightedHyperLogLog.java:233-293 | `count()` returns the value it caches and always clears `invalidateCount`; it recomputes when the flag is set or the cache is negative, and otherwise returns the cached value and leaves the cache as it was |
| WeightedHLL.CountIsStable | src/java/com/github/prasanthj/hll/WeightedHyperLogLog.java:229-294 | with no change in between, a second `count()` returns the same value and leaves the same cache |
| WeightedHLL.SetCountForcesRecompute | src/java/com/github/prasanthj/hll/WeightedHyperLogLog.java:335-338 | after `setCount(c)` the next `count()` returns the fresh estimate, not `c` |
| WeightedHLL.CachedCountIgnoresRegisters | src/java/com/github/prasanthj/hll/WeightedHyperLogLog.java:233 | while the cache is valid, `count()` returns the cached value whatever the registers hold, so an update that does not set the flag leaves it stale |
| WeightedHLL.WeightedHyperLogLog.constructor | src/java/com/github/prasanthj/hll/WeightedHyperLogLog.java:92-127 | `m = 2^p`, the threshold is computed from `m`, `cachedCount = -1`, `invalidateCount = false`, the encoding is the builder's, and the register is a fresh dense one whatever the encoding |
| WeightedHLL.WeightedHyperLogLog.Build | src/java/com/github/prasanthj/hll/WeightedHyperLogLog.java:81-91 | `build()` throws `IllegalArgumentException` iff `p` is outside `[MIN_P_VALUE, MAX_P_VALUE]`, and returns a sketch iff `p` is inside; that sketch is fresh, with the builder's `p`, encoding, `bitPacking` and `noBias`, the switch threshold computed from `m = 2^p`, an empty count cache and a fresh dense register of zero slots |
| WeightedHLL.WeightedHyperLogLog.Add | src/java/com/github/prasanthj/hll/WeightedHyperLogLog.java:208-227 | `add` always updates the dense register through `my_add`, passes its exception on, sets `invalidateCount` exactly when a slot was raised, and never touches `encoding` |
| WeightedHLL.WeightedHyperLogLog.Count | src/java/com/github/prasanthj/hll/WeightedHyperLogLog.java:229-294 | `count()` returns and caches what the pure cache step gives for the current register bytes |
| WeightedHLL.WeightedHyperLogLog.SetCount | src/java/com/github/prasanthj/hll/WeightedHyperLogLog.java:335-338 | `setCount(c)` leaves `cachedCount = c` and `invalidateCount = true` |
| WeightedHLL.WeightedHyperLogLog.SetHLLDenseRegister | src/java/com/github/prasanthj/hll/WeightedHyperLogLog.java:375-381 | the loop leaves the register as the in-order replay of `set(i, reg[i])`; the count cache is not touched |
| WeightedHLL.WeightedHyperLogLog.SparseToDenseRegister | src/java/com/github/prasanthj/hll/WeightedHyperLogLog.java:390-403 | a null input gives null; otherwise a fresh dense register with the entries replayed in order at `key & ((1 << p) - 1)` |
| WeightedHLL.WeightedHyperLogLog.GetEncoding | src/java/com/github/prasanthj/hll/WeightedHyperLogLog.java:432-434 | `getEncoding` reports the stored encoding, and no encoding test holds for what it reports, so a sketch that reports SPARSE is still dense |
| WeightedHLL.WeightedHyperLogLog.SetEncoding | src/java/com/github/prasanthj/hll/WeightedHyperLogLog.java:436-438 | `setEncoding` changes only the `encoding` field, and `getEncoding` then returns the new value |

## Left out

- Murmur3 hashing and the typed `addX` wrappers of the sketch. `Add` takes the 64-bit hash as given.
- All floating-point estimation: `alphaMM`, `linearCount`, `estimateBias`, `getThreshold`,
  `getSumInversePow2` and `getStandardError`. `Count` takes the estimate as a function of the
  register bytes, so it does not model which estimator branch is taken.
- The numerics of `computePi` and `java.util.Random`. Both are parameters of `MyAdd`.
- MyAdd: a NaN weight passes the `weight <= 0` test in Java; the model has no NaN.
- MyAdd: does not model the wrap-around of the `int` counter `i` after 2^31 rejected draws.
- MyAdd: the rejection loop has no cap in Java. The model requires that the draw sequence contains
  an accepted draw, so a run that never accepts is not modelled.
- All `System.out.println` logging, `toString`, `toExtendedString` and `toStringExtended`.
- The sketch's `hashCode`. It calls `count()` and so mutates the cache.
- The unused experimental variants `add` and `yet_another_add` of the register. They use floating
  point and the sketch never calls them.
- `getRegister`, `setRegister`, `getMaxRegisterValue`, `getHLLDenseRegister`,
  `getHLLSparseRegister` and `getNumRegisterIndexBits` are field reads and writes.
  `RegisterArg.DenseArg` carries what `merge` and `equals` read through the first and third.
  `setRegister` would replace the array; no modelled operation calls it.
- `setHLLSparseRegister`: it always dereferences the null `sparseRegister`. The sparse branches of
  `add` and `count` cannot be reached, so the sparse register's own code is not part of this model.
- `HLLDenseRegister` is not part of this model. The register constructor is modelled as building
  `2^p` zero slots with a zero cached maximum. `HLLConstants` is not part of this model either:
  `MIN_P_VALUE` and `MAX_P_VALUE` are parameters of `Build`, required to lie in `[0, 30]`.
- WeightedHyperLogLog.constructor: requires `0 <= p <= 30`. Within that range, `1 << p` and the
  register size stay in `int` range.
- SparseToDenseRegister: the sparse map is taken as its sequence of entries in iteration order,
  with `p <= 30`.
- SetHLLDenseRegister: `reg` is a value, so the array argument is never modelled as aliasing the
  register.
- Merge: the argument's bytes are a value, so merging a register with itself is modelled through
  its contents. This gives the same result as the Java loop, which reads each slot before writing
  it.
- The `NullPointerException` cases are not modelled: `setHLLDenseRegister(null)`, a builder
  whose `encoding` is null, and `extractLowBitsTo(null)` on a register with a non-zero slot.
  Other null arguments are modelled. A null argument to `merge` or `equals` fails the
  `instanceof` test, so it is `RegisterArg.OtherRegister`: `merge` throws
  `IllegalArgumentException` and `equals` returns false. `sparseToDenseRegister(null)` is
  `SparseToDenseRegister(None)`, which returns null.
- LowBitsRoundTrip: proved only for `p + lr - 1 <= 30`. At 31 the sign extension still keeps the
  bits. From 32 on, the shift distance wraps and the round trip fails (`LowBitsShiftWraps`,
  `LowBitsTopRankWraps`).
