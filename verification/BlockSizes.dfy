/** Block sizes and the rounding of intervals to whole blocks (blocks.c, blocks.h). */
module BlockSizes {
  import opened Layout
  import opened Arith

  /** The block sizes in force: the built-in table, or a single size set through PMEMFILE_BLOCK_SIZE,
      which also turns overallocation off. */
  datatype Config = Default(overallocate: bool) | Fixed(blockSize: nat) {

    function Sizes(): (s: seq<nat>)
      ensures s != []
    {
      if Default? then [MIN_BLOCK_SIZE, 256 * 1024, 2 * 1024 * 1024] else [blockSize]
    }

    /** block_alignment: the smallest block size. */
    function Align(): nat { Sizes()[0] }

    ghost predicate Valid() {
      Fixed? ==> IsPowerOfTwo(blockSize) && MIN_BLOCK_SIZE <= blockSize < TWO_32
    }

    /** MAX_BLOCK_SIZE */
    function MaxBlockSize(): nat
      requires Align() > 0
    {
      (TWO_32 - 1) - (TWO_32 - 1) % Align()
    }
  }

  lemma AlignIsPowerOfTwo(c: Config) returns (k: nat)
    requires c.Valid()
    ensures c.Align() == Pow2(k) && 14 <= k < 32
  {
    Pow2Of64();
    assert Pow2(7) == 128;
    Pow2Add(7, 7);
    if c.Default? {
      k := 14;
    } else {
      k :| Pow2(k) == c.blockSize;
      if k < 14 {
        assert Pow2(14) == 2 * Pow2(13);
        Pow2Monotone(k, 13);
      } else if k >= 32 {
        Pow2Monotone(32, k);
      }
    }
  }

  lemma AlignIsPower(c: Config)
    requires c.Valid()
    ensures IsPowerOfTwo(c.Align())
  {
    var k := AlignIsPowerOfTwo(c);
  }

  lemma AlignFacts(c: Config)
    requires c.Valid()
    ensures MIN_BLOCK_SIZE <= c.Align() < TWO_32 && c.Align() % MIN_BLOCK_SIZE == 0
    ensures Multiple(TWO_32, c.Align())
    ensures c.MaxBlockSize() >= c.Align()
  {
    var k := AlignIsPowerOfTwo(c);
    Pow2Of64();
    assert Pow2(7) == 128;
    Pow2Add(7, 7);
    Pow2Divides(14, k);
    Pow2Divides(k, 32);
    Pow2Monotone(14, k);
    hide Pow2;
    LargestMultiple(TWO_32 - 1, c.Align());
  }

  lemma ConfigFacts(c: Config)
    requires c.Valid()
    ensures MIN_BLOCK_SIZE <= c.Align() < TWO_32 && c.Align() % MIN_BLOCK_SIZE == 0
    ensures Multiple(TWO_32, c.Align())
    ensures forall b :: b in c.Sizes() ==> c.Align() <= b < TWO_32 && Multiple(b, c.Align())
    ensures forall i, j :: 0 <= i < j < |c.Sizes()| ==> c.Sizes()[i] < c.Sizes()[j]
    ensures c.MaxBlockSize() >= c.Align()
  {
    hide Multiple;
    AlignFacts(c);
    TableSizes();
    SelfMultiple(c.Align());
  }

  lemma SizesWithinMax(c: Config)
    requires c.Valid()
    ensures c.Align() > 0 && forall b :: b in c.Sizes() ==> b <= c.MaxBlockSize()
  {
    AlignFacts(c);
  }

  lemma SelfMultiple(n: nat)
    requires n > 0
    ensures Multiple(n, n)
  {
    DivModOf(1, 0, n);
  }

  lemma TableSizes()
    ensures Multiple(256 * 1024, MIN_BLOCK_SIZE) && Multiple(2 * 1024 * 1024, MIN_BLOCK_SIZE)
  {
  }

  lemma LargestMultiple(n: nat, a: nat)
    requires 0 < a <= n
    ensures n - n % a >= a
  {
    DivStep(n, a);
    assert (0 + 1) * a == a;
    assert n / a != 0;
    MulMonotone(1, n / a, a);
  }

  // ---------------------------------------------------------------- rounding

  /** block_rounddown: n & ~(alignment - 1) on 64 bits. */
  function BlockRounddown(n: nat, align: nat): nat
    requires 0 < align <= TWO_64
  {
    BitAnd(n, TWO_64 - align)
  }

  function BlockRoundup(n: nat, align: nat): nat
    requires 0 < align <= TWO_64
  {
    BlockRounddown((n + align - 1) % TWO_64, align)
  }

  lemma RounddownExact(n: nat, align: nat)
    requires IsPowerOfTwo(align) && 0 < align <= TWO_64 && n < TWO_64
    ensures BlockRounddown(n, align) == n - n % align
  {
    var k :| Pow2(k) == align;
    Pow2Of64();
    if k > 64 {
      assert Pow2(65) == 2 * Pow2(64);
      Pow2Monotone(65, k);
    }
    AndHighMask(n, 64, k);
  }

  /** Rounding down yields multiples of the alignment exactly when the alignment is a power of two.
      A block size taken from the environment is only rounded up to a multiple of 16 KiB, so this can fail. */
  lemma RounddownIffPowerOfTwo(align: nat)
    requires 0 < align < TWO_32
    ensures (forall n: nat :: n < TWO_64 ==> Multiple(BlockRounddown(n, align), align)) <==> IsPowerOfTwo(align)
  {
    hide BlockRounddown, Multiple;
    if IsPowerOfTwo(align) {
      forall n: nat | n < TWO_64
        ensures Multiple(BlockRounddown(n, align), align)
      {
        RounddownExact(n, align);
        MinusRemainder(n, align);
      }
    } else {
      var n := RounddownFails(align);
    }
  }

  lemma RounddownFails(align: nat) returns (n: nat)
    requires 0 < align < TWO_32 && !IsPowerOfTwo(align)
    ensures n < TWO_64 && !Multiple(BlockRounddown(n, align), align)
  {
    hide Pow2, BitAnd;
    var h := NextPower(align);
    n := Pow2(h);
    Pow2Of64();
    Pow2Monotone(h, 32);
    HighBitSurvives(64, h, align);
    DivModOf(1, n - align, align);
  }

  /** The smallest power of two above a number that is not one itself. */
  lemma {:induction false} NextPower(align: nat) returns (h: nat)
    requires 0 < align < TWO_32 && !IsPowerOfTwo(align)
    ensures 0 < h <= 32 && align < Pow2(h) < 2 * align
  {
    Pow2Of64();
    h := 32;
    while Pow2(h - 1) > align
      invariant 0 < h <= 32 && align < Pow2(h)
    {
      assert Pow2(0) == 1;
      h := h - 1;
    }
    assert Pow2(h - 1) != align;
    assert Pow2(h) == 2 * Pow2(h - 1);
  }

  /** The block size that PMEMFILE_BLOCK_SIZE sets; 0 means the built-in table. */
  function EnvironmentSize(value: nat): nat {
    var largest := Default(false).MaxBlockSize();
    if value < MIN_BLOCK_SIZE then 0 else if value > largest then largest else BlockRoundup(value, MIN_BLOCK_SIZE)
  }

  lemma MinIsPowerOfTwo()
    ensures IsPowerOfTwo(MIN_BLOCK_SIZE)
  {
    AlignIsPower(Default(false));
  }

  /** Every multiple of 16 KiB below 2^32 can be set. */
  lemma EnvironmentSizes(value: nat)
    ensures var b := EnvironmentSize(value); b == 0 || (MIN_BLOCK_SIZE <= b < TWO_32 && Multiple(b, MIN_BLOCK_SIZE))
    ensures MIN_BLOCK_SIZE <= value < TWO_32 && Multiple(value, MIN_BLOCK_SIZE) ==> EnvironmentSize(value) == value
  {
    hide IsPowerOfTwo, BlockRounddown;
    MinIsPowerOfTwo();
    var n := value + MIN_BLOCK_SIZE - 1;
    if MIN_BLOCK_SIZE <= value <= Default(false).MaxBlockSize() {
      RounddownExact(n, MIN_BLOCK_SIZE);
    }
  }

  /** With a block size from the environment, offsets are rounded to whole blocks iff it is a power of two. */
  lemma EnvironmentRoundsIff(value: nat)
    requires EnvironmentSize(value) > 0
    ensures EnvironmentSize(value) < TWO_32
    ensures (forall n: nat :: n < TWO_64 ==> Multiple(BlockRounddown(n, EnvironmentSize(value)), EnvironmentSize(value)))
      <==> IsPowerOfTwo(EnvironmentSize(value))
  {
    hide EnvironmentSize, Multiple, BlockRounddown, IsPowerOfTwo;
    EnvironmentSizes(value);
    RounddownIffPowerOfTwo(EnvironmentSize(value));
  }

  /** 48 KiB is a size that can be set and is not rounded to. */
  lemma FortyEightKilobytes() returns (n: nat)
    ensures EnvironmentSize(0xC000) == 0xC000 && !IsPowerOfTwo(0xC000)
    ensures n < TWO_64 && !Multiple(BlockRounddown(n, 0xC000), 0xC000)
  {
    EnvironmentSizes(0xC000);
    hide EnvironmentSize, BlockRounddown;
    assert Pow2(7) == 128;
    Pow2Add(7, 7);
    assert Pow2(15) == 2 * Pow2(14) && Pow2(16) == 2 * Pow2(15);
    if IsPowerOfTwo(0xC000) {
      var k :| Pow2(k) == 0xC000;
      if k <= 15 {
        Pow2Monotone(k, 15);
      } else {
        Pow2Monotone(16, k);
      }
    }
    n := RounddownFails(0xC000);
  }

  lemma MinusRemainder(n: nat, m: nat)
    requires m > 0
    ensures n >= n % m && Multiple(n - n % m, m)
  {
    assert n - n % m == (n / m) * m;
    ModOfProduct(n / m, m);
  }

  /** The largest multiple of `a` that is not above `n`. */
  function FloorTo(n: nat, a: nat): (r: nat)
    requires a > 0
    ensures r <= n < r + a && Multiple(r, a)
  {
    MinusRemainder(n, a);
    n - n % a
  }

  /** The smallest multiple of `a` that is not below `n`. */
  function CeilTo(n: nat, a: nat): (r: nat)
    requires a > 0
    ensures n <= r < n + a && Multiple(r, a)
  {
    FloorTo(n + a - 1, a)
  }

  /** Two multiples less than one step apart are equal. */
  lemma MultipleUnique(x: nat, y: nat, a: nat)
    requires a > 0 && Multiple(x, a) && Multiple(y, a) && x <= y < x + a
    ensures x == y
  {
    var p, q := x / a, y / a;
    assert x == p * a && y == q * a;
    assert (p + 1) * a == p * a + a && (q + 1) * a == q * a + a;
    if p < q {
      MulMonotone(p + 1, q, a);
    } else if q < p {
      MulMonotone(q + 1, p, a);
    }
  }

  lemma FloorIs(n: nat, r: nat, a: nat)
    requires a > 0 && Multiple(r, a) && r <= n < r + a
    ensures FloorTo(n, a) == r
  {
    hide FloorTo, Multiple;
    if FloorTo(n, a) <= r {
      MultipleUnique(FloorTo(n, a), r, a);
    } else {
      MultipleUnique(r, FloorTo(n, a), a);
    }
  }

  lemma RoundedAlready(n: nat, a: nat)
    requires a > 0 && Multiple(n, a)
    ensures FloorTo(n, a) == n && CeilTo(n, a) == n
  {
    hide Multiple;
    FloorIs(n, n, a);
    FloorIs(n + a - 1, n, a);
  }

  lemma MultipleSum(x: nat, y: nat, a: nat)
    requires a > 0 && Multiple(x, a) && Multiple(y, a)
    ensures Multiple(x + y, a)
  {
    var p, q := x / a, y / a;
    assert x + y == (p + q) * a by {
      assert x == p * a && y == q * a;
    }
    ModOfProduct(p + q, a);
  }

  lemma RemainderIsMultiple(x: nat, m: nat, a: nat)
    requires a > 0 && m > 0 && Multiple(x, a) && Multiple(m, a)
    ensures Multiple(x % m, a)
  {
    var p, q, t := x / a, m / a, x / m;
    assert x == p * a && m == q * a && x == t * m + x % m;
    assert t * m == (t * q) * a;
    assert x % m == (p - t * q) * a;
    assert p >= t * q;
    ModOfProduct(p - t * q, a);
  }

  lemma MultipleDifference(x: nat, y: nat, a: nat)
    requires a > 0 && Multiple(x, a) && Multiple(y, a) && x > y
    ensures Multiple(x - y, a) && x - y >= a
  {
    var p, q := x / a, y / a;
    assert x == p * a && y == q * a;
    if p <= q {
      MulMonotone(p, q, a);
    }
    assert x - y == (p - q) * a;
    ModOfProduct(p - q, a);
    MulMonotone(1, p - q, a);
  }

  /** expand_to_full_pages: the smallest block-aligned interval around [offset, offset + length). */
  method ExpandToFullPages(c: Config, offset: nat, length: nat) returns (start: nat, len: nat)
    requires c.Valid() && offset < TWO_64 && length + 2 * c.Align() < TWO_64
    ensures c.Align() > 0 && Multiple(len, c.Align())
    ensures start == FloorTo(offset, c.Align()) && start + len == CeilTo(offset + length, c.Align())
  {
    hide Multiple, BlockRoundup, Pow2, IsPowerOfTwo;
    ConfigFacts(c);
    AlignIsPower(c);
    var a := c.Align();
    MinusRemainder(offset, a);
    RoundupExact(length + offset % a, a);
    len := length + offset % a;
    start := FloorTo(offset, a);
    len := BlockRoundup(len, a);
    MultipleSum(start, len, a);
    if start + len <= CeilTo(offset + length, a) {
      MultipleUnique(start + len, CeilTo(offset + length, a), a);
    } else {
      MultipleUnique(CeilTo(offset + length, a), start + len, a);
    }
  }

  lemma RoundupExact(n: nat, align: nat)
    requires IsPowerOfTwo(align) && 0 < align <= TWO_64 && n + align - 1 < TWO_64
    ensures n <= BlockRoundup(n, align) < n + align && Multiple(BlockRoundup(n, align), align)
  {
    var m := n + align - 1;
    assert m % TWO_64 == m;
    RounddownExact(m, align);
    MinusRemainder(m, align);
  }

  // ---------------------------------------------------------------- choosing a block size

  /** data_block_info: the smallest table size that holds `size`, or the largest one within `limit` if
      that smallest size exceeds the limit or the table ends before. */
  method DataBlockInfo(sizes: seq<nat>, size: nat, limit: nat) returns (b: nat)
    requires sizes != [] && (forall i, j :: 0 <= i < j < |sizes| ==> sizes[i] < sizes[j])
    requires limit >= sizes[0]
    ensures b in sizes && b <= limit
    ensures b >= size ==> forall x :: x in sizes && x >= size ==> b <= x
    ensures b < size ==> forall x :: x in sizes && x <= limit ==> x <= b
  {
    for i := 0 to |sizes|
      invariant forall j :: 0 <= j < i ==> sizes[j] < size && sizes[j] <= limit
    {
      if sizes[i] > limit {
        return sizes[i - 1];
      }
      if size <= sizes[i] {
        return sizes[i];
      }
    }
    return sizes[|sizes| - 1];
  }
}
