/** The activity's bitmap memory cache: an LruCache<String, Bitmap> sized by
    initLruCache, and the two methods that fill it and read it. */
module BitmapCache {
  import opened Footprint
  import opened CacheAccounting
  import opened LruModel

  /** android.util.LruCache<String, Bitmap> with the sizeOf override of
      initLruCache: bitmaps by key, kept in access order, whose sizes in KiB
      add up to at most maxSize. */
  class LruCache {
    var order: seq<Key>
    var values: map<Key, Bitmap>
    var size: nat
    const maxSize: nat

    ghost function State(): LruState
      reads this
    {
      LruState(order, values)
    }

    /** The running size is the sum of the entries' sizes, and within capacity. */
    ghost predicate Valid()
      reads this
    {
      Consistent(State()) && size == Used(State()) && size <= maxSize
    }

    constructor (maxSize: nat)
      requires maxSize > 0
      ensures Valid() && State() == Empty && this.maxSize == maxSize
    {
      this.maxSize := maxSize;
      order, values, size := [], map[], 0;
    }

    /** get: the cached bitmap, if any; a hit makes the key the most recently used. */
    method Get(key: Key) returns (r: Option<Bitmap>)
      requires Valid()
      modifies this
      ensures Valid()
      ensures r == Lookup(old(State()), key)
      ensures State() == Access(old(State()), key)
    {
      if key in values {
        r := Some(values[key]);
        AccessKeepsUsage(State(), key);
        order := Touch(order, key);
      } else {
        r := None;
      }
    }

    /** put: store the bitmap as the most recently used entry, account for it
      (and for the bitmap it replaces), then trim to capacity. Returns the
      bitmap previously stored under the key. */
    method Put(key: Key, b: Bitmap) returns (previous: Option<Bitmap>)
      requires Valid()
      modifies this
      ensures Valid()
      ensures previous == Lookup(old(State()), key)
      ensures State() == Store(old(State()), key, b, maxSize)
    {
      InsertConsistent(State(), key, b);
      previous := if key in values then Some(values[key]) else None;
      size := size + SizeOf(b);
      order, values := Touch(order, key), values[key := b];
      if previous.Some? {
        size := size - SizeOf(previous.value);
      }
      assert State() == Inserted(old(State()), key, b);
      TrimToSize();
    }

    /** trimToSize: evict least recently used entries until the cache is
      within its capacity. */
    method TrimToSize()
      requires Consistent(State()) && size == Used(State())
      modifies this
      ensures Valid()
      ensures State() == Trim(old(State()), maxSize)
    {
      while size > maxSize
        invariant Consistent(State()) && size == Used(State())
        invariant Trim(State(), maxSize) == Trim(old(State()), maxSize)
        decreases |order|
      {
        ghost var before := State();
        TrimStep(before, maxSize);
        EvictEldestConsistent(before);
        var eldest := order[0];
        size := size - SizeOf(values[eldest]);
        order, values := order[1..], values - {eldest};
        assert State() == EvictEldest(before);
      }
      TrimStep(State(), maxSize);
    }
  }

  /** The activity's cache-related state: the memory cache created in
      initLruCache. */
  class MainActivity {
    var memoryCache: LruCache

    ghost predicate Valid()
      reads this, memoryCache
    {
      memoryCache.Valid()
    }

    /** initLruCache, with the runtime's heap limit passed in as maxMemory. */
    constructor (maxMemory: nat)
      requires maxMemory <= Int64Max
      requires CacheCapacity(maxMemory) > 0
      ensures Valid() && fresh(memoryCache)
      ensures memoryCache.maxSize == CacheCapacity(maxMemory)
      ensures memoryCache.State() == Empty
    {
      var cacheSize := CacheCapacity(maxMemory);
      memoryCache := new LruCache(cacheSize);
    }

    /** addBitmapToMemoryCache: put the bitmap only when the lookup misses. */
    method AddBitmapToMemoryCache(key: Key, bitmap: Bitmap)
      requires Valid()
      modifies memoryCache
      ensures Valid()
      ensures memoryCache.State() == PutIfAbsent(old(memoryCache.State()), key, bitmap, memoryCache.maxSize)
    {
      var cached := GetBitmapFromMemCache(key);
      if cached == None {
        var previous := memoryCache.Put(key, bitmap);
      }
    }

    /** getBitmapFromMemCache: the cache's get. */
    method GetBitmapFromMemCache(key: Key) returns (r: Option<Bitmap>)
      requires Valid()
      modifies memoryCache
      ensures Valid()
      ensures r == Lookup(old(memoryCache.State()), key)
      ensures memoryCache.State() == Access(old(memoryCache.State()), key)
    {
      r := memoryCache.Get(key);
    }
  }

  /** Recency refresh through the activity's methods: with room for two
      one-KiB bitmaps, adding a and b, reading a, then adding c evicts b, the
      least recently used, and keeps a. */
  method RecencyRefreshScenario() returns (aKept: bool, bKept: bool, cKept: bool)
    ensures aKept && !bKept && cKept
  {
    var oneKib := Bitmap(16, 16, Argb8888);
    assert SizeOf(oneKib) == 1;
    RecencyRefresh(oneKib);
    var cache := new LruCache(2);
    var previous := cache.Put("a", oneKib);
    previous := cache.Put("b", oneKib);
    var hit := cache.Get("a");
    previous := cache.Put("c", oneKib);
    aKept, bKept, cKept := "a" in cache.values, "b" in cache.values, "c" in cache.values;
  }
}
