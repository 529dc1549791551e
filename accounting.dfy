/** The arithmetic of initLruCache: the cache's capacity taken from the heap
    limit, and the size function that charges each bitmap in whole KiB. */
module CacheAccounting {
  import opened Footprint

  const KiB: nat := 1024

  /** The cache gets one eighth of the heap limit. */
  const HeapShare: nat := 8

  const Int32Modulus: int := 0x1_0000_0000
  const Int32Max: int := 0x7FFF_FFFF
  const Int64Max: int := 0x7FFF_FFFF_FFFF_FFFF

  /** The overridden sizeOf: a bitmap's cost in cache units is its byte count
      divided by 1024, rounded down. */
  function SizeOf(b: Bitmap): (units: nat)
    ensures units * KiB <= ByteCount(b) < (units + 1) * KiB
  {
    ByteCount(b) / KiB
  }

  /** A bitmap of less than one KiB costs the cache nothing. */
  lemma SubKibBitmapIsFree(b: Bitmap)
    requires ByteCount(b) < KiB
    ensures SizeOf(b) == 0
  {
  }

  /** Java's narrowing cast (int) of a long: keep the low 32 bits, read them
      as a two's complement number. */
  function ToInt32(x: int): (r: int)
    ensures -Int32Max - 1 <= r <= Int32Max
    ensures (x - r) % Int32Modulus == 0
    ensures -Int32Max - 1 <= x <= Int32Max ==> r == x
    ensures 0 <= x ==> r <= x
  {
    var low := x % Int32Modulus;
    if low <= Int32Max then low else low - Int32Modulus
  }

  /** Java's `/` on int: the quotient truncated toward zero. */
  function JavaDiv(a: int, d: int): (q: int)
    requires d > 0
    ensures 0 <= a ==> 0 <= d * q <= a && a - d * q < d
    ensures a < 0 ==> a <= d * q <= 0 && d * q - a < d
  {
    if a >= 0 then
      FloorDivBounds(a, d);
      a / d
    else
      var p := (-a) / d;
      FloorDivBounds(-a, d);
      assert d * -p == -(d * p);
      -p
  }

  lemma FloorDivBounds(n: nat, d: int)
    requires d > 0
    ensures 0 <= d * (n / d) <= n && n - d * (n / d) < d
  {
    assert n == d * (n / d) + n % d;
  }

  /** initLruCache: the heap limit in KiB, narrowed to an int, then divided by
      eight. Whatever the cast does, the cache never gets more than an eighth of
      the heap, nor more than an eighth of the largest int. */
  function CacheCapacity(maxMemory: nat): (cacheSize: int)
    requires maxMemory <= Int64Max
    ensures cacheSize * HeapShare * KiB <= maxMemory
    ensures cacheSize * HeapShare <= Int32Max
  {
    var kib := maxMemory / KiB;
    FloorDivBounds(maxMemory, KiB);
    var narrowed := ToInt32(kib);
    var q := JavaDiv(narrowed, HeapShare);
    EighthWithin(narrowed, kib);
    q
  }

  /** An eighth of a value no larger than `kib`, truncated, is at most `kib`
      once scaled back up. */
  lemma EighthWithin(narrowed: int, kib: nat)
    requires narrowed <= kib
    ensures JavaDiv(narrowed, HeapShare) * HeapShare * KiB <= kib * KiB
  {
    var q := JavaDiv(narrowed, HeapShare);
    if narrowed >= 0 {
      MulMonotone(q * HeapShare, kib, KiB);
    } else {
      MulMonotone(q * HeapShare, 0, KiB);
    }
  }

  /** For any heap limit below 2 TiB the cast does not wrap, and the capacity is
      exactly one eighth of the heap limit, counted in whole KiB. */
  lemma {:induction false} CapacityIsEighthOfHeap(maxMemory: nat)
    requires maxMemory < 0x200_0000_0000
    ensures CacheCapacity(maxMemory) == maxMemory / (KiB * HeapShare)
    ensures CacheCapacity(maxMemory) * KiB * HeapShare <= maxMemory
  {
    var kib := maxMemory / KiB;
    assert kib <= Int32Max;
    assert ToInt32(kib) == kib;
    var cap := kib / HeapShare;
    assert CacheCapacity(maxMemory) == cap;
    assert cap * HeapShare <= kib < (cap + 1) * HeapShare;
    assert kib * KiB <= maxMemory < (kib + 1) * KiB;
    assert cap * HeapShare * KiB <= maxMemory;
    assert maxMemory < (cap + 1) * (KiB * HeapShare);
    DivUnique(maxMemory, KiB * HeapShare, cap);
  }

  lemma DivUnique(n: nat, d: nat, q: nat)
    requires d > 0
    requires q * d <= n < (q + 1) * d
    ensures n / d == q
  {
    var r := n / d;
    FloorDivBounds(n, d);
    assert r * d <= n < (r + 1) * d;
    MulCancelLt(q, r + 1, d);
    MulCancelLt(r, q + 1, d);
  }

  lemma MulCancelLt(a: int, b: int, d: int)
    requires d > 0 && a * d < b * d
    ensures a < b
  {
    assert (b - a) * d == b * d - a * d;
  }

  /** When the runtime reports no heap limit (Long.MAX_VALUE), the cast wraps
      to -1 and the cache gets capacity 0. */
  lemma UnlimitedHeapGivesZeroCapacity()
    ensures CacheCapacity(Int64Max) == 0
  {
    assert Int64Max / KiB == 0x1F_FFFF_FFFF_FFFF;
    assert ToInt32(0x1F_FFFF_FFFF_FFFF) == -1;
  }
}
