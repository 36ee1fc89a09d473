/** Model of `getNumberOfProcessors`, the logical-processor count used to size a
    pool. The operating-system query itself (GetProcessAffinityMask on Windows,
    sched_getaffinity with CPU_COUNT_S on Linux) is not modelled: its outcome is
    a parameter, either a failure or the value it reported. */
module PlatformSupport {

  /** Outcome of an operating-system query. */
  datatype Query<T> = Failure | Success(value: T)

  /** Width of DWORD_PTR, the type of a Windows affinity mask, on a 64-bit build.
      Bit positions are themselves 8-bit vectors, so that every fact about
      shifting stays in bit-vector arithmetic. */
  const WordBits: bv8 := 64

  /** Whether processor `i` is set in the affinity mask. */
  predicate IsSet(mask: bv64, i: bv8)
    requires i < WordBits
  {
    mask & (1 << i) != 0
  }

  /** Number of processors set among bit positions 0 .. k-1 of the mask. */
  function CountBelow(mask: bv64, k: bv8): (c: nat)
    requires k <= WordBits
    ensures c <= k as nat
  {
    if k == 0 then 0 else CountBelow(mask, k - 1) + (if IsSet(mask, k - 1) then 1 else 0)
  }

  /** Number of processors set in the whole mask. */
  function PopCount(mask: bv64): nat
  {
    CountBelow(mask, WordBits)
  }

  /** The bits of `mask` below position k, as a mask. */
  function LowBits(mask: bv64, k: bv8): bv64
    requires k <= WordBits
  {
    mask & ((1 << k) - 1)
  }

  /** Adding bit position k to the low part of a mask. */
  lemma LowBitsStep(mask: bv64, k: bv8)
    requires k < WordBits
    ensures LowBits(mask, k + 1) == LowBits(mask, k) | (mask & (1 << k))
  {
  }

  /** No processor counted below k means no bit of the mask is set below k. */
  lemma {:induction false} CountBelowZero(mask: bv64, k: bv8)
    requires k <= WordBits
    ensures CountBelow(mask, k) == 0 <==> LowBits(mask, k) == 0
  {
    if k > 0 {
      CountBelowZero(mask, k - 1);
      LowBitsStep(mask, k - 1);
    }
  }

  /** A mask counts zero processors exactly when it is the empty mask. */
  lemma PopCountZero(mask: bv64)
    ensures PopCount(mask) == 0 <==> mask == 0
  {
    CountBelowZero(mask, WordBits);
  }

  /** A full mask counts every bit position: the count reaches the word width. */
  lemma {:induction false} CountBelowFull(k: bv8)
    requires k <= WordBits
    ensures CountBelow(0xFFFF_FFFF_FFFF_FFFF, k) == k as nat
  {
    if k > 0 {
      CountBelowFull(k - 1);
    }
  }

  /** The bit-counting loop of the Windows `getNumberOfProcessors`: a test bit
      starts at 1 and is shifted left after each position until it overflows
      to zero, so every one of the 64 positions is tested exactly once. */
  method CountAffinityBits(affinityMask: bv64) returns (count: nat)
    ensures count == PopCount(affinityMask)
  {
    var numberOfProcessors := 0;
    var testBit: bv64 := 1;
    ghost var i: bv8 := 0;
    while testBit != 0
      invariant i <= 64
      invariant testBit == if i < 64 then 1 << i else 0
      invariant numberOfProcessors == CountBelow(affinityMask, i)
      decreases 64 - i
    {
      if affinityMask & testBit != 0 {
        numberOfProcessors := numberOfProcessors + 1;
      }
      testBit := testBit << 1;
      i := i + 1;
    }
    count := numberOfProcessors;
  }

  /** Windows `getNumberOfProcessors`: count the processors of the process
      affinity mask, fall back to 1 when the query fails, and raise a count of
      0 to 1. */
  method NumberOfProcessorsWindows(query: Query<bv64>) returns (n: nat)
    ensures 1 <= n <= 64
    ensures query.Failure? ==> n == 1
    ensures query.Success? && query.value == 0 ==> n == 1
    ensures query.Success? && query.value != 0 ==> n == PopCount(query.value)
  {
    var numberOfProcessors: nat := 0;
    match query {
      case Success(affinityMask) =>
        numberOfProcessors := CountAffinityBits(affinityMask);
        PopCountZero(affinityMask);
      case Failure =>
        numberOfProcessors := 1;
    }
    if numberOfProcessors < 1 {
      numberOfProcessors := 1;
    }
    n := numberOfProcessors;
  }

  /** Linux `getNumberOfProcessors`: take the processor count of the affinity
      set, fall back to 1 when the query fails, and raise a count of 0 to 1. */
  method NumberOfProcessorsLinux(query: Query<nat>) returns (n: nat)
    ensures n >= 1
    ensures query.Failure? ==> n == 1
    ensures query.Success? ==> n == if query.value == 0 then 1 else query.value
  {
    var numberOfProcessors: nat := 0;
    match query {
      case Success(count) =>
        numberOfProcessors := count;
      case Failure =>
        numberOfProcessors := 1;
    }
    if numberOfProcessors < 1 {
      numberOfProcessors := 1;
    }
    n := numberOfProcessors;
  }
}
