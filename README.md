# Bitmap memory model of bitmaplibrary's MainActivity

This project models the memory side of the sample activity `MainActivity` in
`bitmaplibrary`: how much memory a decoded bitmap takes, how the activity picks
the sample size it asks the decoder for, how it sizes its `LruCache<String, Bitmap>`
from the heap limit, how it charges each bitmap to that cache in whole KiB, and
how `addBitmapToMemoryCache` / `getBitmapFromMemCache` fill and read the cache.

Modules:

- `Footprint` (footprint.dfy): the `Bitmap.Config` formats, their bytes per pixel,
  and the footprint rule width × height × bytes per pixel.
- `CacheAccounting` (accounting.dfy): the overridden `sizeOf` (bytes / 1024) and
  the capacity arithmetic of `initLruCache`. This includes Java's narrowing
  `(int)` cast of a long, modelled as keeping the low 32 bits, and Java's
  truncating int division.
- `SampleSize` (sample_size.dfy): `calculateInSampleSize` exactly as written, with
  `Math.round(float / float)` computed exactly as "nearest integer, halves up".
  It also holds a clamped planner, used for the finding below, and the dimensions
  of a bitmap decoded with a given sample size.
- `LruModel` (lru_model.dfy): the cache as a value. It has an access order (least
  recently used first), a map from key to bitmap, and the specification functions
  for get (`Access`), put (`Store`), trimToSize (`Trim`) and addBitmapToMemoryCache
  (`PutIfAbsent`), with the accounting, eviction-order and recency lemmas about them.
- `BitmapCache` (memory_cache.dfy): the cache as an object. `LruCache` has fields
  that its `Get`, `Put` and `TrimToSize` methods update in place, and each method
  is proved against the `LruModel` function for it. `MainActivity` holds the
  cache created by `initLruCache` and its two cache methods.

The activity relies on `android.util.LruCache`, whose source is not part of this
model. Its behaviour here is an assumption, taken from the class comment at
bitmaplibrary/src/main/java/com/example/bitmaplibrary/MainActivity.java:42-44. get and put refresh a key to most recently used. put adds the new
bitmap's size, subtracts the size of the bitmap it replaces, and then evicts least
recently used entries while the total is over maxSize. A bitmap larger than the
whole capacity is therefore inserted and then evicted by the same put, together
with everything else.

The model follows the code as written:

- `calculateInSampleSize` does not clamp its result to at least 1.
- `calculateInSampleSize` chooses the axis by comparing the source's width and
  height, not the two ratios.

## Model

| member | source | states |
|---|---|---|
| Footprint.BytesPerPixel | bitmaplibrary/src/main/java/com/example/bitmaplibrary/MainActivity.java:27-33 | every format takes between 1 and 4 bytes per pixel |
| Footprint.BytesPerPixelHoldsChannels | bitmaplibrary/src/main/java/com/example/bitmaplibrary/MainActivity.java:27-33 | each format's bytes per pixel hold exactly the channel bits its name lists (ARGB_8888 32, ARGB_4444 16, RGB_565 16, ALPHA_8 8) |
| Footprint.ByteCount | bitmaplibrary/src/main/java/com/example/bitmaplibrary/MainActivity.java:95 | a bitmap's footprint is zero exactly when one of its dimensions is zero |
| Footprint.Rgb565HalvesArgb8888 | bitmaplibrary/src/main/java/com/example/bitmaplibrary/MainActivity.java:35 | choosing RGB_565 instead of ARGB_8888 halves the memory of any bitmap |
| Footprint.ByteCountMonotone | bitmaplibrary/src/main/java/com/example/bitmaplibrary/MainActivity.java:95-96 | a bitmap of the same format that is no wider and no taller takes no more memory |
| CacheAccounting.SizeOf | bitmaplibrary/src/main/java/com/example/bitmaplibrary/MainActivity.java:207-210 | a bitmap's cost in cache units is its byte count in whole KiB, rounded down (units·1024 ≤ bytes < (units+1)·1024) |
| CacheAccounting.SubKibBitmapIsFree | bitmaplibrary/src/main/java/com/example/bitmaplibrary/MainActivity.java:207-210 | a bitmap under 1 KiB costs the cache nothing |
| CacheAccounting.ToInt32 | bitmaplibrary/src/main/java/com/example/bitmaplibrary/MainActivity.java:202 | the (int) cast gives a value in the int range, congruent to its input modulo 2^32, and equal to the input when that is already in range |
| CacheAccounting.JavaDiv | bitmaplibrary/src/main/java/com/example/bitmaplibrary/MainActivity.java:204 | int division truncates toward zero: the product stays between 0 and the dividend, within one divisor of it |
| CacheAccounting.CacheCapacity | bitmaplibrary/src/main/java/com/example/bitmaplibrary/MainActivity.java:202-204 | initLruCache's capacity in KiB, taken eight times, never exceeds the heap limit (even when the int cast wraps), and eight times the capacity fits in an int |
| CacheAccounting.CapacityIsEighthOfHeap | bitmaplibrary/src/main/java/com/example/bitmaplibrary/MainActivity.java:202-204 | below a 2 TiB heap limit the capacity is exactly maxMemory / 8192, so capacity·8 KiB never exceeds the heap limit |
| CacheAccounting.UnlimitedHeapGivesZeroCapacity | bitmaplibrary/src/main/java/com/example/bitmaplibrary/MainActivity.java:202-204 | with maxMemory = Long.MAX_VALUE the cast wraps to -1 and the capacity is 0 |
| SampleSize.RoundHalfUp | bitmaplibrary/src/main/java/com/example/bitmaplibrary/MainActivity.java:85-87 | Math.round of a/b lies within a half of a/b, halves rounded up |
| SampleSize.RoundHalfUpUnique | bitmaplibrary/src/main/java/com/example/bitmaplibrary/MainActivity.java:85-87 | that bracket determines the rounded value uniquely |
| SampleSize.CalculateInSampleSize | bitmaplibrary/src/main/java/com/example/bitmaplibrary/MainActivity.java:78-91 | a source that fits the requested box gets sample size 1; real bounds never give a negative size |
| SampleSize.WideSourceUsesHeightRatio | bitmaplibrary/src/main/java/com/example/bitmaplibrary/MainActivity.java:83-85 | a wider-than-tall source that does not fit is sampled by its height ratio, rounded half up |
| SampleSize.TallSourceUsesWidthRatio | bitmaplibrary/src/main/java/com/example/bitmaplibrary/MainActivity.java:83-88 | any other source that does not fit (squares included) is sampled by its width ratio, rounded half up |
| SampleSize.SampleSizeZeroIff | bitmaplibrary/src/main/java/com/example/bitmaplibrary/MainActivity.java:81-90 | the result is 0 exactly when downsampling is triggered and the chosen dimension is under half the requested one |
| SampleSize.SampleSizeCanBeZero | bitmaplibrary/src/main/java/com/example/bitmaplibrary/MainActivity.java:83-85 | a 200x5 source requested at 10x100 gets sample size 0 |
| SampleSize.WidthOverflowIgnoredForWideSource | bitmaplibrary/src/main/java/com/example/bitmaplibrary/MainActivity.java:84-85 | a 1000x900 source requested at 100x900 gets sample size 1 although it is ten times too wide |
| SampleSize.PlannedSampleSize | bitmaplibrary/src/main/java/com/example/bitmaplibrary/MainActivity.java:81-90 | the clamped factor is at least 1, is 1 for a source that fits, and agrees with calculateInSampleSize wherever that is at least 1 |
| SampleSize.Sampled | bitmaplibrary/src/main/java/com/example/bitmaplibrary/MainActivity.java:95-96 | decoding with a sample size keeps the format and never enlarges either dimension |
| SampleSize.PlannedDecodeNeverUpsamples | bitmaplibrary/src/main/java/com/example/bitmaplibrary/MainActivity.java:94-96 | decoding at the planned factor never increases the footprint, and a source that fits is decoded unchanged |
| LruModel.Lookup | bitmaplibrary/src/main/java/com/example/bitmaplibrary/MainActivity.java:218-220 | get finds a bitmap exactly when the key is cached, and it is the cached one |
| LruModel.Remove | bitmaplibrary/src/main/java/com/example/bitmaplibrary/MainActivity.java:42-44 | taking a key out of the order drops exactly that key and keeps every other pair of keys in their relative order |
| LruModel.Touch | bitmaplibrary/src/main/java/com/example/bitmaplibrary/MainActivity.java:42-44 | refreshing a key keeps keys distinct, adds only that key and puts it last; every other key keeps its relative order and comes before it |
| LruModel.Access | bitmaplibrary/src/main/java/com/example/bitmaplibrary/MainActivity.java:218-220 | get keeps every cached bitmap, moves a hit to most recently used and leaves the cache alone on a miss (with AccessKeepsUsage and AccessIdempotent) |
| LruModel.Trim | bitmaplibrary/src/main/java/com/example/bitmaplibrary/MainActivity.java:42-44 | trimToSize evicts least recently used entries while the size exceeds maxSize; TrimProperties and TrimEvictsOnlyWhatIsNeeded characterise what it keeps |
| LruModel.TrimProperties | bitmaplibrary/src/main/java/com/example/bitmaplibrary/MainActivity.java:42-44 | trimToSize leaves a consistent cache within capacity that holds the most recently used part of the order with unchanged bitmaps |
| LruModel.TrimKeepsBitmaps | bitmaplibrary/src/main/java/com/example/bitmaplibrary/MainActivity.java:42-44 | trimToSize changes no bitmap it keeps and adds no key |
| LruModel.TrimEvictsOnlyWhatIsNeeded | bitmaplibrary/src/main/java/com/example/bitmaplibrary/MainActivity.java:42-44 | trimToSize evicts no more than needed: keeping the last evicted entry would leave the cache over capacity |
| LruModel.EvictEldest | bitmaplibrary/src/main/java/com/example/bitmaplibrary/MainActivity.java:42-44 | one eviction removes the least recently used entry; EvictEldestConsistent states that it keeps the cache consistent and lowers its size by that entry's units |
| LruModel.EvictEldestConsistent | bitmaplibrary/src/main/java/com/example/bitmaplibrary/MainActivity.java:42-44 | evicting the eldest entry keeps the cache consistent and lowers its size by exactly that entry's units |
| LruModel.AccessKeepsUsage | bitmaplibrary/src/main/java/com/example/bitmaplibrary/MainActivity.java:218-220 | a get keeps the cached bitmaps and the cache's size; only the order changes |
| LruModel.AccessIdempotent | bitmaplibrary/src/main/java/com/example/bitmaplibrary/MainActivity.java:218-220 | two gets of the same key in a row leave the cache as one does |
| LruModel.Store | bitmaplibrary/src/main/java/com/example/bitmaplibrary/MainActivity.java:215 | put leaves the cache within capacity; StoreWithinCapacity, StoreKeepsNewIffFits, StoreLeavesOthers and StoreWithRoom state what it keeps and evicts |
| LruModel.InsertConsistent | bitmaplibrary/src/main/java/com/example/bitmaplibrary/MainActivity.java:215 | put's insertion adds the new bitmap's units and subtracts those of the bitmap it replaces |
| LruModel.StoreWithinCapacity | bitmaplibrary/src/main/java/com/example/bitmaplibrary/MainActivity.java:215 | after a put the cache is consistent and within capacity, and what remains is a most recently used part of the order with the new key last |
| LruModel.StoreKeepsNewIffFits | bitmaplibrary/src/main/java/com/example/bitmaplibrary/MainActivity.java:215 | a put bitmap stays cached exactly when it alone fits the capacity, and then under its key |
| LruModel.StoreLeavesOthers | bitmaplibrary/src/main/java/com/example/bitmaplibrary/MainActivity.java:213-217 | a put never changes another key's bitmap and never adds another key |
| LruModel.StoreWithRoom | bitmaplibrary/src/main/java/com/example/bitmaplibrary/MainActivity.java:215 | a new key that fits beside the cached entries is appended and nothing is evicted |
| LruModel.PutIfAbsent | bitmaplibrary/src/main/java/com/example/bitmaplibrary/MainActivity.java:213-217 | addBitmapToMemoryCache keeps the cache consistent, and within capacity when it was; afterwards the key is cached exactly when it was already cached or the new bitmap alone fits |
| LruModel.PutIfAbsentKeepsExisting | bitmaplibrary/src/main/java/com/example/bitmaplibrary/MainActivity.java:213-217 | adding under a cached key keeps every cached bitmap, and the old bitmap stays under that key |
| LruModel.UnitsTrackBytes | bitmaplibrary/src/main/java/com/example/bitmaplibrary/MainActivity.java:207-210 | the cache's unit count undercounts real memory by less than 1 KiB per entry |
| LruModel.TrimEvictsOnlyEldest | bitmaplibrary/src/main/java/com/example/bitmaplibrary/MainActivity.java:42-44 | with room for two 1-KiB bitmaps and order b, a, c, trimming evicts b alone |
| LruModel.RecencyRefresh | bitmaplibrary/src/main/java/com/example/bitmaplibrary/MainActivity.java:42-44 | with room for two 1-KiB bitmaps, put a, put b, get a, put c evicts b and keeps a and c |
| BitmapCache.LruCache.constructor | bitmaplibrary/src/main/java/com/example/bitmaplibrary/MainActivity.java:205 | a new cache is empty, consistent and has the given capacity |
| BitmapCache.LruCache.Get | bitmaplibrary/src/main/java/com/example/bitmaplibrary/MainActivity.java:219 | get returns the lookup of the old state and leaves the state of Access, keeping the invariant |
| BitmapCache.LruCache.Put | bitmaplibrary/src/main/java/com/example/bitmaplibrary/MainActivity.java:215 | put returns the previous bitmap and leaves the state of Store, keeping the running size equal to the units held and within capacity |
| BitmapCache.LruCache.TrimToSize | bitmaplibrary/src/main/java/com/example/bitmaplibrary/MainActivity.java:42-44 | the eviction loop ends in the state of Trim, with the running size within capacity |
| BitmapCache.MainActivity.constructor | bitmaplibrary/src/main/java/com/example/bitmaplibrary/MainActivity.java:199-212 | initLruCache creates an empty cache whose capacity is CacheCapacity of the heap limit |
| BitmapCache.MainActivity.AddBitmapToMemoryCache | bitmaplibrary/src/main/java/com/example/bitmaplibrary/MainActivity.java:213-217 | the cache ends in the state of PutIfAbsent: a miss puts the bitmap, a hit only refreshes recency |
| BitmapCache.MainActivity.GetBitmapFromMemCache | bitmaplibrary/src/main/java/com/example/bitmaplibrary/MainActivity.java:218-220 | returns the cached bitmap, if any, and refreshes its recency |
| BitmapCache.RecencyRefreshScenario | bitmaplibrary/src/main/java/com/example/bitmaplibrary/MainActivity.java:42-44 | through the object's methods, put a, put b, get a, put c with room for two leaves a and c and evicts b |

## Left out

- `thumbnail` (bitmaplibrary/src/main/java/com/example/bitmaplibrary/MainActivity.java:98-126) is not modelled as an operation. It calls the decoder, which is a foreign call, and recycles a bitmap. Its bounds probe at :105-106 decodes without passing `options`, so `outWidth`/`outHeight` stay 0 and it always asks for sample size 1. The pieces of arithmetic it relies on (`CalculateInSampleSize`, `ByteCount`, `Rgb565HalvesArgb8888`) are modelled separately and not composed; `Sampled` keeps the input's format, whereas thumbnail decodes to RGB_565.
- Both `save` overloads, `compressImage`, `onCreate` and `initView`: file and SD-card I/O, JPEG compression, UI and printing, all outside the memory model.
- `Runtime.getRuntime().maxMemory()` is a parameter of the `MainActivity` constructor.
- The rest of `android.util.LruCache` is not part of this model: remove, resize, evictAll, hit and miss counters, `create`, `entryRemoved`, its synchronization, and its rejection of negative sizes. The eviction behaviour is the assumption stated above.
- BitmapCache.MainActivity.constructor: requires a positive capacity because `LruCache` rejects maxSize ≤ 0 with an exception, so the zero-capacity case (such as an unlimited heap) is stated only as the lemma `UnlimitedHeapGivesZeroCapacity`.
- BitmapCache.MainActivity.AddBitmapToMemoryCache: the lookup and the put at bitmaplibrary/src/main/java/com/example/bitmaplibrary/MainActivity.java:214-215 are two separately locked calls, and the model runs them as one step. Two callers adding the same key concurrently can both miss, and the second put then replaces the first bitmap; concurrent callers are not modelled, so PutIfAbsentKeepsExisting holds for sequential use only.
- SampleSize.CalculateInSampleSize: requires reqWidth, reqHeight > 0. For a request of 0 the source divides a float by 0f: a positive dimension gives Infinity, which Math.round turns into Integer.MAX_VALUE, and a zero dimension gives NaN, which rounds to 0. Those results are not modelled.
- Null keys or bitmaps (which make `LruCache` throw) are not modelled; keys are strings and bitmaps are values.
- SampleSize.RoundHalfUp: computes the exact rounded quotient; the float rounding of very large dimensions is not modelled.
- Footprint.ByteCount: assumes tightly packed rows and does not model the int overflow of `getByteCount` for huge bitmaps.
- SampleSize.Sampled: divides each axis by the factor as given; a decoder that rounds the factor down to a power of two is not modelled.
- Bitmaps are values: object identity, `recycle()` and garbage collection are not modelled.

## Findings

| source | as written | input that shows it | evidently intended | confidence | as-written member | corrected member |
|---|---|---|---|---|---|---|
| bitmaplibrary/src/main/java/com/example/bitmaplibrary/MainActivity.java:83-88 | the rounded ratio is returned with no lower clamp, so it can be 0 | 200x5 source, request 10x100 | a sample size of at least 1 | low, not executed (the platform decoder treats values below 1 as 1) | SampleSize.SampleSizeCanBeZero | SampleSize.PlannedSampleSize |
