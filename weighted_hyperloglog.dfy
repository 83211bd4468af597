/** The weighted sketch: its builder, its construction, the routing of `add` and the lazily
    cached `count`, around one weighted dense register. */
module WeightedHLL {
  import opened Primitives
  import opened HashSplit
  import opened DenseSpec
  import opened WHLLDense

  // ---------------------------------------------------------------- encodings

  /** The constants of an `EncodingType` enum. */
  datatype EncodingType = SPARSE | DENSE

  /** The two enum classes that declare an `EncodingType`: the sketch's own nested enum and the
      one nested in `HyperLogLog`. */
  datatype EnumClass = WeightedHyperLogLogEncoding | HyperLogLogEncoding

  /** A Java enum constant is identified by its declaring class and its name. */
  datatype EnumConstant = EnumConstant(declaredIn: EnumClass, name: EncodingType)

  /** `Enum.equals` is identity: constants of different enum classes are never equal. */
  predicate EnumEquals(a: EnumConstant, b: EnumConstant)
  {
    a.declaredIn == b.declaredIn && a.name == b.name
  }

  /** The value held by the sketch's `encoding` field. */
  function Own(e: EncodingType): EnumConstant
  {
    EnumConstant(WeightedHyperLogLogEncoding, e)
  }

  /** `HyperLogLog.EncodingType.SPARSE` and `HyperLogLog.EncodingType.DENSE`. */
  function Foreign(e: EncodingType): EnumConstant
  {
    EnumConstant(HyperLogLogEncoding, e)
  }

  /** Every encoding test of the sketch compares its own enum against `HyperLogLog`'s, so none
      ever holds, whatever the field is set to. */
  lemma EncodingTestNeverHolds(e: EncodingType, tested: EncodingType)
    ensures !EnumEquals(Own(e), Foreign(tested))
  {
  }

  // ---------------------------------------------------------------- builder and threshold

  datatype WHLLBuilder = WHLLBuilder(numRegisterIndexBits: int32, encoding: EncodingType,
                                     bitPacking: bool, noBias: bool)

  /** `builder()`: 14 index bits, SPARSE, bit packing and bias correction on. */
  const DefaultBuilder := WHLLBuilder(14, SPARSE, true, true)

  /** `((m * 6) / 8) / 5` with bit packing and `m / 3` without, in `int` arithmetic. While
      `6 * m` fits in an `int`, the result is the largest `t` with `40 * t <= 6 * m`, and
      without bit packing the largest `t` with `3 * t <= m`. */
  function EncodingSwitchThreshold(m: int32, bitPacking: bool): (t: int32)
    ensures 0 <= m && bitPacking && 6 * m as int < TWO_31 ==>
              0 <= 40 * t as int <= 6 * m as int < 40 * (t as int + 1)
    ensures 0 <= m && !bitPacking ==> 0 <= 3 * t as int <= m as int < 3 * (t as int + 1)
  {
    if bitPacking then IntDiv(IntDiv(ToInt32(m as int * 6), 8), 5) else IntDiv(m, 3)
  }

  /** At the default `p = 14` the threshold is 2457 entries with bit packing and 5461 without. */
  lemma DefaultThresholds()
    ensures IntShiftLeft(1, DefaultBuilder.numRegisterIndexBits as int) == 16384
    ensures EncodingSwitchThreshold(16384, true) == 2457
    ensures EncodingSwitchThreshold(16384, false) == 5461
  {
    IntShiftLeftOne(14);
    Pow2Of16();
    Pow2Add(14, 2);
    assert Pow2(2) == 4;
  }

  // ---------------------------------------------------------------- sparse input

  /** A sparse register as `sparseToDenseRegister` reads it: its index bits and its
      `(key, value)` entries in iteration order. */
  datatype SparseRegister = SparseRegister(p: nat, sparseMap: seq<(int32, int8)>)

  // ---------------------------------------------------------------- count cache

  datatype CountCache = CountCache(cachedCount: int64, invalidateCount: bool)

  /** One `count()` on a cache, when the estimator gives `estimate` for the current registers:
      the value returned and the cache left behind. */
  function CountStep(cache: CountCache, estimate: int64): (int64, CountCache)
  {
    if cache.invalidateCount || cache.cachedCount < 0 then (estimate, CountCache(estimate, false))
    else (cache.cachedCount, cache)
  }

  /** `count()` returns what it caches and always clears the invalidation flag; it recomputes
      exactly when the flag is set or nothing valid is cached. */
  lemma CountClearsFlag(cache: CountCache, estimate: int64)
    ensures var (c, after) := CountStep(cache, estimate);
      c == after.cachedCount && !after.invalidateCount
      && (c == estimate || c == cache.cachedCount)
      && (cache.invalidateCount || cache.cachedCount < 0 ==> c == estimate)
      && (!cache.invalidateCount && cache.cachedCount >= 0 ==> c == cache.cachedCount && after == cache)
  {
  }

  /** With nothing changed in between, a second `count()` returns the first one's value and
      leaves the same cache. */
  lemma CountIsStable(cache: CountCache, estimate: int64)
    ensures var (c, after) := CountStep(cache, estimate);
      CountStep(after, estimate) == (c, after)
  {
  }

  /** After `setCount(c)` the next `count()` recomputes and does not return `c` unless the
      estimate is `c`. */
  lemma SetCountForcesRecompute(count: int64, estimate: int64)
    ensures CountStep(CountCache(count, true), estimate) == (estimate, CountCache(estimate, false))
  {
  }

  /** A valid cached count is returned whatever the registers now hold: an update that does not
      set the flag (as `setHLLDenseRegister` does not) leaves `count()` stale. */
  lemma CachedCountIgnoresRegisters(cache: CountCache, before: int64, after: int64)
    requires !cache.invalidateCount && cache.cachedCount >= 0
    ensures CountStep(cache, before) == CountStep(cache, after) == (cache.cachedCount, cache)
  {
  }

  // ---------------------------------------------------------------- the sketch

  class WeightedHyperLogLog {
    /** how many low hash bits select a slot of the dense register */
    const p: nat
    /** the slot count of the dense register, `1 << p` */
    const m: nat
    const noBias: bool
    const bitPacking: bool
    /** size of the sparse map at which the sketch would switch to the dense encoding */
    const encodingSwitchThreshold: int32
    /** Only the unreachable SPARSE-to-DENSE switch reassigns the two register fields. */
    const denseRegister: WHLLDenseRegister
    const sparseRegister: Option<SparseRegister>
    var cachedCount: int64
    var invalidateCount: bool
    var encoding: EncodingType

    ghost predicate Valid()
      reads this, denseRegister, denseRegister.register
    {
      && p <= 30 && m == Pow2(p)
      && denseRegister.Valid() && denseRegister.p == p && denseRegister.bitPacking == bitPacking
      && sparseRegister == None
    }

    function Cache(): CountCache
      reads this
    {
      CountCache(cachedCount, invalidateCount)
    }

    /** The private constructor behind `build()`, once `p` is known to be in range. The encoding
        test fails for either builder encoding, so the register is always dense. */
    constructor (builder: WHLLBuilder)
      requires 0 <= builder.numRegisterIndexBits as int <= 30
      ensures Valid() && fresh(denseRegister) && fresh(denseRegister.register)
      ensures p == builder.numRegisterIndexBits as int && m == Pow2(p)
      ensures noBias == builder.noBias && bitPacking == builder.bitPacking
      ensures encodingSwitchThreshold == EncodingSwitchThreshold(Pow2(p) as int32, bitPacking)
      ensures Cache() == CountCache(-1, false) && encoding == builder.encoding
      ensures sparseRegister == None && denseRegister.State() == FreshState(m)
    {
      var bits := builder.numRegisterIndexBits as nat;
      p := bits;
      IntShiftLeftOne(bits);
      var mInt := IntShiftLeft(1, bits);
      m := mInt as nat;
      noBias := builder.noBias;
      bitPacking := builder.bitPacking;
      encodingSwitchThreshold := EncodingSwitchThreshold(mInt, builder.bitPacking);
      cachedCount := -1;
      invalidateCount := false;
      encoding := builder.encoding;
      if EnumEquals(Own(builder.encoding), Foreign(SPARSE)) {
        assert false;
      }
      sparseRegister := None;
      denseRegister := new WHLLDenseRegister(bits, builder.bitPacking);
    }

    /** `builder.build()`: a `p` outside `[minP, maxP]` (the library's `MIN_P_VALUE` and
        `MAX_P_VALUE`) is rejected before anything is built. */
    static method Build(builder: WHLLBuilder, minP: int, maxP: int) returns (r: Outcome<WeightedHyperLogLog>)
      requires 0 <= minP && maxP <= 30
      ensures !(minP <= builder.numRegisterIndexBits as int <= maxP) <==> r == Threw(IllegalArgumentException)
      ensures (minP <= builder.numRegisterIndexBits as int <= maxP) <==> r.Returned?
      ensures r.Returned? ==>
        && fresh(r.value) && fresh(r.value.denseRegister) && fresh(r.value.denseRegister.register)
        && r.value.Valid() && r.value.p == builder.numRegisterIndexBits as int && r.value.GetEncoding() == builder.encoding
        && r.value.bitPacking == builder.bitPacking && r.value.noBias == builder.noBias
        && r.value.encodingSwitchThreshold == EncodingSwitchThreshold(Pow2(r.value.p) as int32, builder.bitPacking)
        && r.value.Cache() == CountCache(-1, false) && r.value.denseRegister.State() == FreshState(r.value.m)
    {
      if builder.numRegisterIndexBits as int < minP || builder.numRegisterIndexBits as int > maxP {
        return Threw(IllegalArgumentException);
      }
      var sketch := new WeightedHyperLogLog(builder);
      r := Returned(sketch);
    }

    /** `add(hashcode, weight)`: always the dense branch; `my_add` updates the register and the
        count is invalidated exactly when a slot was raised. */
    method Add(hashcode: int64, weight: real, draws: seq<real>, pi: (int, int, real) -> real)
      returns (r: Outcome<()>)
      requires Valid()
      requires weight > 0.0 ==> SomeDrawAccepts(draws, Rank(hashcode, p), weight, pi)
      modifies denseRegister.register, denseRegister`maxRegisterValue, this`invalidateCount
      ensures Valid()
      ensures weight <= 0.0 ==>
        && r == Threw(IllegalArgumentException)
        && denseRegister.State() == old(denseRegister.State()) && invalidateCount == old(invalidateCount)
      ensures weight > 0.0 ==>
        var idx, value := RegisterIndex(hashcode, p), WeightedValue(hashcode, p, weight, draws, pi);
        && r == Returned(())
        && denseRegister.State() == AfterSet(old(denseRegister.State()), idx, value)
        && invalidateCount == (old(invalidateCount) || SetRaises(old(denseRegister.State()), idx, value))
    {
      if EnumEquals(Own(encoding), Foreign(SPARSE)) {
        assert false;
      } else {
        var added := denseRegister.MyAdd(hashcode, weight, draws, pi);
        if added.Threw? {
          return Threw(added.exception);
        }
        if added.value {
          invalidateCount := true;
        }
        r := Returned(());
      }
    }

    /** `count()`: the estimate (any function of the register bytes) is recomputed only when
        the cache is invalid, and the cache is valid afterwards. */
    method Count(estimate: seq<int8> -> int64) returns (c: int64)
      requires Valid()
      modifies this`cachedCount, this`invalidateCount
      ensures (c, Cache()) == CountStep(old(Cache()), estimate(denseRegister.register[..]))
    {
      if invalidateCount || cachedCount < 0 {
        if EnumEquals(Own(encoding), Foreign(SPARSE)) {
          assert false;
        } else {
          cachedCount := estimate(denseRegister.register[..]);
        }
        invalidateCount := false;
      }
      c := cachedCount;
    }

    /** `setCount(count)` stores the count and marks it invalid. */
    method SetCount(count: int64)
      modifies this`cachedCount, this`invalidateCount
      ensures Cache() == CountCache(count, true)
    {
      cachedCount := count;
      invalidateCount := true;
    }

    /** `setHLLDenseRegister(reg)`: `set(i, reg[i])` for every byte in order. The count cache is
        not touched. */
    method SetHLLDenseRegister(reg: seq<int8>)
      requires Valid() && |reg| < TWO_31
      modifies denseRegister.register, denseRegister`maxRegisterValue
      ensures Valid()
      ensures denseRegister.State() == ReplayBytes(old(denseRegister.State()), reg)
    {
      var i := 0;
      while i < |reg|
        invariant 0 <= i <= |reg| && Valid()
        invariant denseRegister.State() == ReplayBytes(old(denseRegister.State()), reg[..i])
      {
        assert reg[..i + 1][..i] == reg[..i];
        var updated := denseRegister.Set(i as int32, reg[i]);
        i := i + 1;
      }
      assert reg[..|reg|] == reg;
    }

    /** `sparseToDenseRegister(sparse)`: `null` for `null`; otherwise a fresh dense register with
        `set(key & ((1 << p) - 1), value)` applied for every entry in order. */
    method SparseToDenseRegister(sparse: Option<SparseRegister>) returns (result: WHLLDenseRegister?)
      requires sparse.Some? ==> sparse.value.p <= 30
      ensures sparse.None? ==> result == null
      ensures sparse.Some? ==>
        && result != null && fresh(result) && fresh(result.register) && result.Valid()
        && result.p == sparse.value.p && result.bitPacking == bitPacking
        && result.State() == ReplayEntries(FreshState(Pow2(sparse.value.p)), sparse.value.sparseMap, sparse.value.p)
    {
      if sparse.None? {
        return null;
      }
      var sp := sparse.value;
      IntShiftLeftOne(sp.p);
      var pMask := IntShiftLeft(1, sp.p) as int - 1;
      Pow2BelowInt(sp.p);
      result := new WHLLDenseRegister(sp.p, bitPacking);
      var k := 0;
      while k < |sp.sparseMap|
        invariant 0 <= k <= |sp.sparseMap| && result.Valid() && fresh(result.register)
        invariant result.p == sp.p && result.bitPacking == bitPacking
        invariant result.State() == ReplayEntries(FreshState(Pow2(sp.p)), sp.sparseMap[..k], sp.p)
      {
        assert sp.sparseMap[..k + 1][..k] == sp.sparseMap[..k];
        var (key, value) := sp.sparseMap[k];
        var idx := key as int % (pMask + 1);
        var updated := result.Set(idx as int32, value);
        k := k + 1;
      }
      assert sp.sparseMap[..|sp.sparseMap|] == sp.sparseMap;
    }

    /** `getEncoding()`: the stored encoding. No encoding test holds for it, so a sketch that
        reports SPARSE still keeps a dense register. */
    function GetEncoding(): (e: EncodingType)
      reads this
      ensures e == encoding
      ensures forall tested :: !EnumEquals(Own(e), Foreign(tested))
    {
      encoding
    }

    /** `setEncoding(e)` changes only the field; no encoding test ever holds, so `add` and
        `count` keep taking the dense branch. */
    method SetEncoding(encoding: EncodingType)
      modifies this`encoding
      ensures this.encoding == encoding && GetEncoding() == encoding
    {
      this.encoding := encoding;
    }
  }
}
