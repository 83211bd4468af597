/** The weighted dense register: `m = 2^p` byte slots updated in place by a monotonic max. */
module WHLLDense {
  import opened Primitives
  import opened HashSplit
  import opened DenseSpec

  /** What `merge` and `equals` are handed: a dense register (its bytes and its cached largest
      value, as read through `getRegister` and `getMaxRegisterValue`), or any other object. */
  datatype RegisterArg = DenseArg(register: seq<int8>, maxRegisterValue: int32) | OtherRegister

  class WHLLDenseRegister {
    /** how many low hash bits select a slot */
    const p: nat
    /** the slot count, always `2^p` */
    const m: nat
    const bitPacking: bool
    /** `2^p` bytes of register */
    const register: array<int8>
    /** the largest value written so far, cached */
    var maxRegisterValue: int32

    ghost predicate Valid()
      reads this, register
    {
      && p <= 30 && m == Pow2(p) && register.Length == m && m < TWO_31
      && NonNegative(register[..])
    }

    /** The register's contents as a value. */
    function State(): DenseState
      reads this, register
    {
      DenseState(register[..], maxRegisterValue)
    }

    /** A register of `2^p` zero slots. */
    constructor (p: nat, bitPack: bool)
      requires p <= 30
      ensures Valid() && this.p == p && bitPacking == bitPack
      ensures State() == FreshState(Pow2(p))
      ensures fresh(register)
    {
      this.p := p;
      m := Pow2(p);
      bitPacking := bitPack;
      register := new int8[Pow2(p)](_ => 0);
      maxRegisterValue := 0;
      Pow2BelowInt(p);
      new;
      assert register[..] == FreshState(Pow2(p)).slots;
    }

    /** `set(idx, value)`: a negative index fails on the array access; otherwise the slot is
        raised to `value` when that is larger, and the result says whether it was. */
    method Set(idx: int32, value: int8) returns (r: Outcome<bool>)
      requires Valid()
      modifies register, this`maxRegisterValue
      ensures Valid()
      ensures idx < 0 ==> r == Threw(ArrayIndexOutOfBoundsException) && State() == old(State())
      ensures idx >= 0 ==> r == Returned(SetRaises(old(State()), idx as nat, value))
                           && State() == AfterSet(old(State()), idx as nat, value)
    {
      if idx < 0 {
        return Threw(ArrayIndexOutOfBoundsException);
      }
      var updated := false;
      if idx as int < register.Length && value > register[idx] {
        if value as int > maxRegisterValue as int {
          maxRegisterValue := value as int32;
        }
        register[idx] := value;
        updated := true;
      }
      r := Returned(updated);
    }

    function Size(): (n: nat)
      requires Valid()
      reads this, register
      ensures n == m == Pow2(p)
    {
      register.Length
    }

    /** The number of zero slots, counted slot by slot. */
    method GetNumZeroes() returns (n: nat)
      requires Valid()
      ensures n == CountZeroes(register[..])
      ensures n <= Size()
    {
      n := 0;
      for i := 0 to register.Length
        invariant n == CountZeroes(register[..i])
      {
        assert register[..i + 1][..i] == register[..i];
        if register[i] == 0 {
          n := n + 1;
        }
      }
      assert register[..register.Length] == register[..];
    }

    /** `merge(other)`: only a dense register of the same length is accepted, and then every
        slot becomes the larger of the two; anything else throws and changes nothing. */
    method Merge(other: RegisterArg) returns (r: Outcome<()>)
      requires Valid()
      modifies register, this`maxRegisterValue
      ensures Valid()
      ensures !other.DenseArg? ==> r == Threw(IllegalArgumentException) && State() == old(State())
      ensures other.DenseArg? && |other.register| != m ==>
                r == Threw(IllegalArgumentException) && State() == old(State())
      ensures other.DenseArg? && |other.register| == m ==>
                r == Returned(()) && State() == MergeState(old(State()), other.register, other.maxRegisterValue)
    {
      if !other.DenseArg? {
        return Threw(IllegalArgumentException);
      }
      var inRegister := other.register;
      if register.Length != |inRegister| {
        return Threw(IllegalArgumentException);
      }
      for i := 0 to |inRegister|
        invariant forall j :: 0 <= j < i ==> register[j] == Max8(old(register[j]), inRegister[j])
        invariant forall j :: i <= j < register.Length ==> register[j] == old(register[j])
        invariant maxRegisterValue == old(maxRegisterValue)
      {
        var cb := register[i];
        var ob := inRegister[i];
        register[i] := if ob > cb then ob else cb;
      }
      if other.maxRegisterValue > maxRegisterValue {
        maxRegisterValue := other.maxRegisterValue;
      }
      assert register[..] == MergeState(old(State()), inRegister, other.maxRegisterValue).slots;
      r := Returned(());
    }

    /** `my_add(hashcode, weight)`: the low `p` bits of the hash pick the slot and the trailing
        zeros above them give the rank `lr`; draw `i` is accepted when it is at most
        `computePi(lr, i, weight)`, and `lr` plus the number of rejected draws is written through
        `set`. The random draws are the sequence `draws` and `computePi` is `pi`. */
    method MyAdd(hashcode: int64, weight: real, draws: seq<real>, pi: (int, int, real) -> real)
      returns (r: Outcome<bool>)
      requires Valid()
      requires weight > 0.0 ==> SomeDrawAccepts(draws, Rank(hashcode, p), weight, pi)
      modifies register, this`maxRegisterValue
      ensures Valid()
      ensures weight <= 0.0 ==> r == Threw(IllegalArgumentException) && State() == old(State())
      ensures weight > 0.0 ==>
        var idx, value := RegisterIndex(hashcode, p), WeightedValue(hashcode, p, weight, draws, pi);
        r == Returned(SetRaises(old(State()), idx, value)) && State() == AfterSet(old(State()), idx, value)
    {
      if weight <= 0.0 {
        return Threw(IllegalArgumentException);
      }
      var registerIdx := RegisterIndex(hashcode, p);
      var lr := Rank(hashcode, p);
      ghost var accepted := FirstAccept(draws, lr, weight, pi);
      var i := 0;
      var pI := pi(lr, i, weight);
      var f := draws[0];
      while f > pI
        invariant 0 <= i <= accepted && f == draws[i] && pI == pi(lr, i, weight)
        decreases accepted - i
      {
        i := i + 1;
        pI := pi(lr, i, weight);
        f := draws[i];
      }
      Pow2BelowInt(p);
      r := Set(registerIdx as int32, ToByte(lr + i));
    }

    /** `extractLowBitsTo(dest)`: the hashes handed to `dest.add`, in call order. */
    method ExtractLowBitsTo() returns (calls: seq<int64>)
      requires Valid()
      ensures calls == LowBitsCalls(register[..], p)
    {
      Pow2BelowInt(p);
      calls := [];
      for idx := 0 to register.Length
        invariant calls == LowBitsCalls(register[..idx], p)
      {
        assert register[..idx + 1][..idx] == register[..idx];
        var lr := register[idx];
        if lr != 0 {
          calls := calls + [LowBitsHash(p, lr, idx)];
        }
      }
      assert register[..register.Length] == register[..];
    }

    /** `equals(obj)`: a dense register with the same zero count, cached maximum and bytes. */
    function Equals(obj: RegisterArg): (r: bool)
      reads this, register
      ensures r <==> obj.DenseArg? && obj.register == register[..] && obj.maxRegisterValue == maxRegisterValue
    {
      obj.DenseArg? && CountZeroes(register[..]) == CountZeroes(obj.register)
      && maxRegisterValue == obj.maxRegisterValue && register[..] == obj.register
    }

    /** `hashCode()`, built from the zero count, the cached maximum and the bytes. */
    function HashCode(): (h: int32)
      reads this, register
      ensures h == ToInt32(31 * CountZeroes(register[..]) + 31 * maxRegisterValue as int
                           + ArraysHashCode(register[..]) as int)
    {
      HashOf(State())
    }
  }

  /** Registers that are `equals` have the same `hashCode`. */
  lemma EqualRegistersHashEqually(a: WHLLDenseRegister, b: WHLLDenseRegister)
    requires a.Equals(DenseArg(b.register[..], b.maxRegisterValue))
    ensures b.Equals(DenseArg(a.register[..], a.maxRegisterValue))
    ensures a.HashCode() == b.HashCode()
  {
  }
}
