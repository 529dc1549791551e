/** The state of the bitmap memory cache as a value, and what get, put, the
    eviction step and addBitmapToMemoryCache's put-if-absent do to it. Keys are kept from least to most recently
    used, the access order in which the cache evicts. */
module LruModel {
  import opened Footprint
  import opened CacheAccounting

  datatype Option<T> = None | Some(value: T)

  type Key = string

  /** The cached bitmaps by key, and the keys from least to most recently used. */
  datatype LruState = LruState(order: seq<Key>, values: map<Key, Bitmap>)

  const Empty: LruState := LruState([], map[])

  predicate Distinct(s: seq<Key>)
  {
    forall i, j :: 0 <= i < j < |s| ==> s[i] != s[j]
  }

  /** Every cached key appears exactly once in the recency order. */
  predicate Consistent(s: LruState)
  {
    && Distinct(s.order)
    && (forall k :: k in s.order ==> k in s.values)
    && (forall k :: k in s.values ==> k in s.order)
  }

  /** Cache units charged for key k (nothing when k is not cached). */
  function UnitsAt(values: map<Key, Bitmap>, k: Key): nat
  {
    if k in values then SizeOf(values[k]) else 0
  }

  /** Units charged for the keys of `order`. */
  function Total(order: seq<Key>, values: map<Key, Bitmap>): nat
  {
    if order == [] then 0 else UnitsAt(values, order[0]) + Total(order[1..], values)
  }

  /** The cache's size: units charged for everything it holds. */
  function Used(s: LruState): nat
  {
    Total(s.order, s.values)
  }

  /** Bytes taken by the bitmaps of `order`. */
  function TotalBytes(order: seq<Key>, values: map<Key, Bitmap>): nat
  {
    if order == [] then 0
    else (if order[0] in values then ByteCount(values[order[0]]) else 0) + TotalBytes(order[1..], values)
  }

  function Lookup(s: LruState, key: Key): (r: Option<Bitmap>)
    ensures r.Some? <==> key in s.values
    ensures r.Some? ==> r.value == s.values[key]
  {
    if key in s.values then Some(s.values[key]) else None
  }

  /** `order` without `key`, everything else in the same order. */
  function Remove(order: seq<Key>, key: Key): (r: seq<Key>)
    ensures forall k :: k in r <==> k in order && k != key
    ensures Distinct(order) ==> Distinct(r)
    ensures key !in order ==> r == order
    ensures |r| <= |order|
    ensures forall a, b :: a != key && b != key ==> (Before(r, a, b) <==> Before(order, a, b))
  {
    if order == [] then []
    else
      var x, tail := order[0], order[1..];
      assert order == [x] + tail;
      DistinctTail(order);
      var rest := Remove(tail, key);
      assert forall a, b :: a != key && b != key ==> (Before(order, a, b) <==> (x == a && b in tail) || Before(tail, a, b)) by {
        forall a, b | a != key && b != key {
          BeforeCons(x, tail, a, b);
        }
      }
      if x == key then rest
      else
        DistinctCons(x, rest);
        assert forall a, b :: a != key && b != key ==> (Before([x] + rest, a, b) <==> (x == a && b in rest) || Before(rest, a, b)) by {
          forall a, b | a != key && b != key {
            BeforeCons(x, rest, a, b);
          }
        }
        [x] + rest
  }

  lemma DistinctTail(s: seq<Key>)
    requires s != []
    ensures Distinct(s) ==> s[0] !in s[1..] && Distinct(s[1..])
  {
    if Distinct(s) {
      forall j | 0 <= j < |s[1..]| ensures s[1..][j] != s[0] {
        assert s[1..][j] == s[j + 1];
      }
    }
  }

  lemma DistinctCons(x: Key, s: seq<Key>)
    ensures x !in s && Distinct(s) ==> Distinct([x] + s)
  {
    if x !in s && Distinct(s) {
      var t := [x] + s;
      forall i, j | 0 <= i < j < |t| ensures t[i] != t[j] {
        assert t[j] == s[j - 1];
        if i > 0 {
          assert t[i] == s[i - 1];
        }
      }
    }
  }

  /** Mark `key` most recently used: move it to (or add it at) the end. The
      other keys keep their relative order, and every one of them comes
      before `key`. */
  function Touch(order: seq<Key>, key: Key): (r: seq<Key>)
    ensures Distinct(order) ==> Distinct(r)
    ensures forall k :: k in r <==> k in order || k == key
    ensures |r| > 0 && r[|r| - 1] == key
    ensures forall a, b :: a != key && b != key ==> (Before(r, a, b) <==> Before(order, a, b))
    ensures forall a {:trigger Before(r, a, key)} :: a in order && a != key ==> Before(r, a, key)
  {
    var rest := Remove(order, key);
    assert forall a, b :: b != key ==> (Before(rest + [key], a, b) <==> Before(rest, a, b)) by {
      forall a, b | b != key {
        BeforeSnoc(rest, key, a, b);
      }
    }
    assert forall a :: a in rest ==> Before(rest + [key], a, key) by {
      forall a | a in rest {
        BeforeSnoc(rest, key, a, key);
      }
    }
    rest + [key]
  }

  /** `a` comes before `b` in the recency order `s`: `a` was used less recently. */
  predicate Before(s: seq<Key>, a: Key, b: Key)
  {
    exists i, j :: 0 <= i < j < |s| && s[i] == a && s[j] == b
  }

  lemma BeforeCons(x: Key, s: seq<Key>, a: Key, b: Key)
    ensures Before([x] + s, a, b) <==> (x == a && b in s) || Before(s, a, b)
  {
    var t := [x] + s;
    if Before(t, a, b) {
      var i, j :| 0 <= i < j < |t| && t[i] == a && t[j] == b;
      assert t[j] == s[j - 1];
      if i > 0 {
        assert t[i] == s[i - 1];
      }
    }
    if x == a && b in s {
      var j :| 0 <= j < |s| && s[j] == b;
      assert t[0] == a && t[j + 1] == b;
    }
    if Before(s, a, b) {
      var i, j :| 0 <= i < j < |s| && s[i] == a && s[j] == b;
      assert t[i + 1] == a && t[j + 1] == b;
    }
  }

  lemma BeforeSnoc(s: seq<Key>, y: Key, a: Key, b: Key)
    ensures b != y ==> (Before(s + [y], a, b) <==> Before(s, a, b))
    ensures a in s ==> Before(s + [y], a, y)
  {
    var t := s + [y];
    if b != y && Before(t, a, b) {
      var i, j :| 0 <= i < j < |t| && t[i] == a && t[j] == b;
      assert j < |s|;
      assert s[i] == a && s[j] == b;
    }
    if Before(s, a, b) {
      var i, j :| 0 <= i < j < |s| && s[i] == a && s[j] == b;
      assert t[i] == a && t[j] == b;
    }
    if a in s {
      var i :| 0 <= i < |s| && s[i] == a;
      assert t[i] == a && t[|s|] == y;
    }
  }

  /** get: a hit refreshes the key's recency; a miss changes nothing. */
  function Access(s: LruState, key: Key): (r: LruState)
    ensures r.values == s.values
    ensures key in s.values ==> |r.order| > 0 && r.order[|r.order| - 1] == key
    ensures key !in s.values ==> r == s
  {
    if key in s.values then LruState(Touch(s.order, key), s.values) else s
  }

  /** trimToSize: while the cache is over its capacity, evict the least
      recently used entry. (A cache over capacity is never empty.) */
  function Trim(s: LruState, maxSize: nat): LruState
    decreases |s.order|
  {
    if Used(s) <= maxSize then s
    else Trim(EvictEldest(s), maxSize)
  }

  /** What trimming leaves: a consistent state within capacity, holding the
      most recently used part of the order with the same bitmaps; everything
      evicted was less recently used than everything kept. */
  lemma TrimProperties(s: LruState, maxSize: nat)
    requires Consistent(s)
    ensures var r := Trim(s, maxSize);
            && Consistent(r)
            && Used(r) <= maxSize
            && |r.order| <= |s.order| && r.order == s.order[|s.order| - |r.order|..]
            && (forall k :: k in r.values ==> k in s.values && r.values[k] == s.values[k])
  {
    TrimWithinCapacity(s, maxSize);
    TrimKeepsRecentPart(s, maxSize);
    TrimKeepsBitmaps(s, maxSize);
  }

  lemma {:induction false} TrimWithinCapacity(s: LruState, maxSize: nat)
    requires Consistent(s)
    ensures Consistent(Trim(s, maxSize)) && Used(Trim(s, maxSize)) <= maxSize
    decreases |s.order|
  {
    if Used(s) > maxSize {
      EvictEldestConsistent(s);
      TrimWithinCapacity(EvictEldest(s), maxSize);
    }
  }

  /** Trimming evicts only a least recently used prefix of the order. */
  lemma {:induction false} TrimKeepsRecentPart(s: LruState, maxSize: nat)
    ensures var r := Trim(s, maxSize);
            |r.order| <= |s.order| && r.order == s.order[|s.order| - |r.order|..]
    decreases |s.order|
  {
    if Used(s) > maxSize {
      var e := EvictEldest(s);
      TrimKeepsRecentPart(e, maxSize);
      SuffixOfTail(s.order, e.order, Trim(e, maxSize).order);
    } else {
      assert s.order[|s.order| - |s.order|..] == s.order;
    }
  }

  /** Trimming changes no bitmap it keeps. */
  lemma {:induction false} TrimKeepsBitmaps(s: LruState, maxSize: nat)
    ensures var r := Trim(s, maxSize);
            forall k :: k in r.values ==> k in s.values && r.values[k] == s.values[k]
    decreases |s.order|
  {
    if Used(s) > maxSize {
      TrimKeepsBitmaps(EvictEldest(s), maxSize);
    }
  }

  /** A suffix of the tail of `s` is a suffix of `s`. */
  lemma SuffixOfTail(s: seq<Key>, tail: seq<Key>, r: seq<Key>)
    requires s != [] && tail == s[1..]
    requires |r| <= |tail| && r == tail[|tail| - |r|..]
    ensures |r| <= |s| && r == s[|s| - |r|..]
  {
    assert tail[|tail| - |r|..] == s[|s| - |r|..];
  }

  /** The state after removing the least recently used entry. */
  function EvictEldest(s: LruState): LruState
    requires s.order != []
  {
    LruState(s.order[1..], s.values - {s.order[0]})
  }

  lemma EvictEldestConsistent(s: LruState)
    requires Consistent(s) && s.order != []
    ensures Consistent(EvictEldest(s))
    ensures Used(s) == SizeOf(s.values[s.order[0]]) + Used(EvictEldest(s))
  {
    var o, e := s.order, EvictEldest(s);
    forall k | k in e.order ensures k in e.values {
      var i :| 1 <= i < |o| && o[i] == k;
    }
    forall k | k in e.values ensures k in e.order {
      var i :| 0 <= i < |o| && o[i] == k;
      assert i != 0;
      assert e.order[i - 1] == k;
    }
    TotalFrame(o[1..], s.values, e.values);
  }

  /** put: store the bitmap under `key`, mark it most recently used, then
      trim to capacity. */
  function Store(s: LruState, key: Key, b: Bitmap, maxSize: nat): (r: LruState)
    requires Consistent(s)
    ensures Used(r) <= maxSize
  {
    InsertConsistent(s, key, b);
    TrimWithinCapacity(Inserted(s, key, b), maxSize);
    Trim(Inserted(s, key, b), maxSize)
  }

  /** The state right after the map insertion, before trimming. */
  function Inserted(s: LruState, key: Key, b: Bitmap): LruState
  {
    LruState(Touch(s.order, key), s.values[key := b])
  }

  // Accounting lemmas

  /** Only the units of the keys in `order` matter to its total. */
  lemma {:induction false} TotalFrame(order: seq<Key>, v: map<Key, Bitmap>, w: map<Key, Bitmap>)
    requires forall k :: k in order ==> UnitsAt(v, k) == UnitsAt(w, k)
    ensures Total(order, v) == Total(order, w)
  {
    if order != [] {
      TotalFrame(order[1..], v, w);
    }
  }

  /** Dropping a key that is not in `order` from the map leaves its total alone. */
  lemma TotalWithout(order: seq<Key>, v: map<Key, Bitmap>, x: Key)
    requires x !in order
    ensures Total(order, v - {x}) == Total(order, v)
  {
    TotalFrame(order, v - {x}, v);
  }

  lemma NotInSuffix(s: seq<Key>, x: Key, i: nat)
    requires x !in s && i <= |s|
    ensures x !in s[i..]
  {
    forall j | 0 <= j < |s[i..]| ensures s[i..][j] != x {
      assert s[i..][j] == s[i + j];
    }
  }

  lemma {:induction false} TotalAppend(a: seq<Key>, b: seq<Key>, v: map<Key, Bitmap>)
    ensures Total(a + b, v) == Total(a, v) + Total(b, v)
  {
    if a != [] {
      assert (a + b)[1..] == a[1..] + b;
      TotalAppend(a[1..], b, v);
    } else {
      assert a + b == b;
    }
  }

  /** Taking a key out of a duplicate-free order takes out exactly its units. */
  lemma {:induction false} TotalRemove(order: seq<Key>, key: Key, v: map<Key, Bitmap>)
    requires Distinct(order)
    ensures Total(order, v) == Total(Remove(order, key), v) + (if key in order then UnitsAt(v, key) else 0)
  {
    if order != [] {
      assert Distinct(order[1..]);
      TotalRemove(order[1..], key, v);
      if order[0] == key {
        assert key !in order[1..];
      } else {
        assert ([order[0]] + Remove(order[1..], key))[1..] == Remove(order[1..], key);
      }
    }
  }

  /** A hit keeps the cached bitmaps and the cache's size; only the order changes. */
  lemma AccessKeepsUsage(s: LruState, key: Key)
    requires Consistent(s)
    ensures Consistent(Access(s, key))
    ensures Access(s, key).values == s.values
    ensures Used(Access(s, key)) == Used(s)
  {
    if key in s.values {
      TotalAppend(Remove(s.order, key), [key], s.values);
      TotalRemove(s.order, key, s.values);
    }
  }

  /** The insertion step of put: the size grows by the new bitmap's units and
      shrinks by those of the bitmap it replaces. */
  lemma InsertConsistent(s: LruState, key: Key, b: Bitmap)
    requires Consistent(s)
    ensures Consistent(Inserted(s, key, b))
    ensures Used(Inserted(s, key, b)) + UnitsAt(s.values, key) == Used(s) + SizeOf(b)
  {
    var t := Inserted(s, key, b);
    var rest := Remove(s.order, key);
    TotalAppend(rest, [key], t.values);
    TotalFrame(rest, s.values, t.values);
    TotalRemove(s.order, key, s.values);
  }

  /** Every cached key is charged within the total. */
  lemma {:induction false} TotalCoversEach(order: seq<Key>, v: map<Key, Bitmap>, key: Key)
    requires key in order
    ensures UnitsAt(v, key) <= Total(order, v)
  {
    if order[0] != key {
      TotalCoversEach(order[1..], v, key);
    }
  }

  /** KiB accounting against real memory: the bitmaps charged `Total` units take
      at least that many KiB and less than one KiB more per entry. */
  lemma {:induction false} UnitsTrackBytes(order: seq<Key>, v: map<Key, Bitmap>)
    ensures Total(order, v) * KiB <= TotalBytes(order, v)
    ensures TotalBytes(order, v) <= Total(order, v) * KiB + |order| * (KiB - 1)
  {
    if order != [] {
      UnitsTrackBytes(order[1..], v);
    }
  }

  // Eviction order

  /** Trimming evicts no more than it must: had it kept the last entry it
      evicted, the cache would still be over capacity. */
  lemma {:induction false} TrimEvictsOnlyWhatIsNeeded(s: LruState, maxSize: nat)
    requires Consistent(s)
    ensures EvictsOnlyWhatIsNeeded(s, Trim(s, maxSize), maxSize)
    decreases |s.order|
  {
    TrimStep(s, maxSize);
    if Used(s) > maxSize {
      var e := EvictEldest(s);
      TrimEvictsOnlyWhatIsNeeded(e, maxSize);
      TrimKeepsRecentPart(e, maxSize);
      EvictionKeepsMinimality(s, Trim(e, maxSize), maxSize);
    }
  }

  /** Keeping `r` out of `s` evicted no more than needed: had one more of the
      most recent entries been kept, the total would exceed maxSize. */
  predicate EvictsOnlyWhatIsNeeded(s: LruState, r: LruState, maxSize: nat)
  {
    |r.order| < |s.order| ==> Total(s.order[|s.order| - |r.order| - 1..], s.values) > maxSize
  }

  /** The inductive step: if keeping `r` out of the state without its eldest
      entry evicted no more than needed, so does keeping `r` out of the whole
      state, which is over capacity. */
  lemma EvictionKeepsMinimality(s: LruState, r: LruState, maxSize: nat)
    requires Consistent(s) && Used(s) > maxSize
    requires |r.order| < |s.order|
    requires EvictsOnlyWhatIsNeeded(EvictEldest(s), r, maxSize)
    ensures EvictsOnlyWhatIsNeeded(s, r, maxSize)
  {
    var kept := |r.order|;
    if kept < |s.order| - 1 {
      TotalOfSuffixAfterEviction(s, |s.order| - kept - 1);
    } else {
      assert s.order[|s.order| - kept - 1..] == s.order;
    }
  }

  /** One step of trimToSize: over capacity, trimming is evicting the eldest
      entry and trimming the rest. */
  lemma TrimStep(s: LruState, maxSize: nat)
    requires Consistent(s)
    ensures Used(s) <= maxSize ==> Trim(s, maxSize) == s
    ensures Used(s) > maxSize ==> s.order != [] && Consistent(EvictEldest(s))
                                  && Trim(s, maxSize) == Trim(EvictEldest(s), maxSize)
  {
    if Used(s) > maxSize {
      EvictEldestConsistent(s);
    }
  }

  /** The total of s.order[i..], for i >= 1, is the same before and after the
      eldest entry is evicted. */
  lemma TotalOfSuffixAfterEviction(s: LruState, i: nat)
    requires Consistent(s) && 1 <= i <= |s.order|
    ensures Total(EvictEldest(s).order[i - 1..], EvictEldest(s).values) == Total(s.order[i..], s.values)
  {
    var e := EvictEldest(s);
    DistinctTail(s.order);
    NotInSuffix(s.order[1..], s.order[0], i - 1);
    assert e.order[i - 1..] == s.order[i..];
    TotalWithout(s.order[i..], s.values, s.order[0]);
  }

  /** Trimming never evicts the most recently used entry when that entry
      alone fits the capacity. */
  lemma {:induction false} TrimKeepsNewestThatFits(s: LruState, maxSize: nat)
    requires Consistent(s) && s.order != []
    requires UnitsAt(s.values, s.order[|s.order| - 1]) <= maxSize
    ensures var r := Trim(s, maxSize);
            r.order != [] && r.order[|r.order| - 1] == s.order[|s.order| - 1]
    decreases |s.order|
  {
    if |s.order| == 1 {
      assert Used(s) == UnitsAt(s.values, s.order[0]) by {
        assert s.order[1..] == [];
        assert Total(s.order[1..], s.values) == 0;
        assert Total(s.order, s.values) == UnitsAt(s.values, s.order[0]) + Total(s.order[1..], s.values);
      }
      TrimStep(s, maxSize);
    } else if Used(s) > maxSize {
      TrimStep(s, maxSize);
      var newest := s.order[|s.order| - 1];
      var e := EvictEldest(s);
      assert e.order == s.order[1..];
      assert e.order[|e.order| - 1] == newest;
      assert s.order[0] != newest;
      assert UnitsAt(e.values, newest) == UnitsAt(s.values, newest);
      TrimKeepsNewestThatFits(e, maxSize);
    } else {
      TrimStep(s, maxSize);
    }
  }

  // Recency

  lemma {:induction false} RemoveAppend(a: seq<Key>, b: seq<Key>, key: Key)
    ensures Remove(a + b, key) == Remove(a, key) + Remove(b, key)
  {
    if a == [] {
      assert a + b == b;
    } else {
      assert (a + b)[1..] == a[1..] + b;
      RemoveAppend(a[1..], b, key);
    }
  }

  /** Two hits on the same key in a row leave the cache as one hit does. */
  lemma AccessIdempotent(s: LruState, key: Key)
    ensures Access(Access(s, key), key) == Access(s, key)
  {
    if key in s.values {
      var rest := Remove(s.order, key);
      RemoveAppend(rest, [key], key);
      assert Remove([key], key) == [];
      assert rest + [] == rest;
    }
  }

  // Worked case

  /** With room for two one-KiB bitmaps, b (least recently used), then a, then
      a new c: trimming evicts b alone. */
  lemma TrimEvictsOnlyEldest(x: Bitmap)
    requires SizeOf(x) == 1
    ensures var m := map["a" := x, "b" := x, "c" := x];
            Trim(LruState(["b", "a", "c"], m), 2) == LruState(["a", "c"], m - {"b"})
  {
    var m := map["a" := x, "b" := x, "c" := x];
    var s := LruState(["b", "a", "c"], m);
    assert Consistent(s);
    assert Total(["c"], m) == 1 by {
      assert ["c"][1..] == [];
    }
    assert Total(["a", "c"], m) == 2 by {
      assert ["a", "c"][1..] == ["c"];
    }
    assert Used(s) == 3 by {
      assert s.order[1..] == ["a", "c"];
    }
    EvictEldestConsistent(s);
    var e := EvictEldest(s);
    assert e == LruState(["a", "c"], m - {"b"});
    TotalWithout(["a", "c"], m, "b");
  }

  // put and put-if-absent

  /** addBitmapToMemoryCache: a key already cached keeps its bitmap (the
      lookup only refreshes its recency); an absent key is stored. */
  function PutIfAbsent(s: LruState, key: Key, b: Bitmap, maxSize: nat): (r: LruState)
    requires Consistent(s)
    ensures Consistent(r)
    ensures Used(s) <= maxSize ==> Used(r) <= maxSize
    ensures key in r.values
            <==> key in s.values || SizeOf(b) <= maxSize
  {
    if key in s.values then
      AccessKeepsUsage(s, key);
      Access(s, key)
    else
      StoreKeepsNewIffFits(s, key, b, maxSize);
      StoreWithinCapacity(s, key, b, maxSize);
      Store(s, key, b, maxSize)
  }

  /** A stored bitmap survives its own put exactly when it alone fits in the
      cache; one larger than the capacity is evicted at once, with the rest. */
  lemma StoreKeepsNewIffFits(s: LruState, key: Key, b: Bitmap, maxSize: nat)
    requires Consistent(s)
    ensures key in Store(s, key, b, maxSize).values <==> SizeOf(b) <= maxSize
    ensures key in Store(s, key, b, maxSize).values ==> Store(s, key, b, maxSize).values[key] == b
  {
    InsertConsistent(s, key, b);
    var t := Inserted(s, key, b);
    var r := Trim(t, maxSize);
    TrimProperties(t, maxSize);
    if key in r.values {
      TotalCoversEach(r.order, r.values, key);
    }
    if SizeOf(b) <= maxSize {
      TrimKeepsNewestThatFits(t, maxSize);
    }
  }

  /** put leaves the cache consistent and within capacity, and what it evicts
      is a least recently used part of the order, the new key counting as the
      most recently used. */
  lemma StoreWithinCapacity(s: LruState, key: Key, b: Bitmap, maxSize: nat)
    requires Consistent(s)
    ensures var r, touched := Store(s, key, b, maxSize), Touch(s.order, key);
            && Consistent(r)
            && Used(r) <= maxSize
            && |r.order| <= |touched| && r.order == touched[|touched| - |r.order|..]
  {
    InsertConsistent(s, key, b);
    var t := Inserted(s, key, b);
    assert Store(s, key, b, maxSize) == Trim(t, maxSize);
    TrimWithinCapacity(t, maxSize);
    TrimKeepsRecentPart(t, maxSize);
  }

  /** put never changes another key's bitmap: every other key that is still
      cached afterwards was cached before, with the same bitmap. */
  lemma StoreLeavesOthers(s: LruState, key: Key, b: Bitmap, maxSize: nat)
    requires Consistent(s)
    ensures var r := Store(s, key, b, maxSize);
            forall k :: k != key && k in r.values ==> k in s.values && r.values[k] == s.values[k]
  {
    InsertConsistent(s, key, b);
    TrimProperties(Inserted(s, key, b), maxSize);
  }

  /** addBitmapToMemoryCache on a cached key keeps every cached bitmap, the
      new one is dropped. */
  lemma PutIfAbsentKeepsExisting(s: LruState, key: Key, b: Bitmap, maxSize: nat)
    requires Consistent(s) && key in s.values
    ensures PutIfAbsent(s, key, b, maxSize).values == s.values
    ensures Lookup(PutIfAbsent(s, key, b, maxSize), key) == Lookup(s, key)
  {
  }

  /** A new key that fits beside the cached ones is appended and nothing is evicted. */
  lemma StoreWithRoom(s: LruState, key: Key, b: Bitmap, maxSize: nat)
    requires Consistent(s) && key !in s.values
    requires Used(s) + SizeOf(b) <= maxSize
    ensures Store(s, key, b, maxSize) == LruState(s.order + [key], s.values[key := b])
  {
    InsertConsistent(s, key, b);
  }

  /** The recency-refresh case on the state: with room for two one-KiB
      bitmaps, put a, put b, get a, put c leaves a and c, b being evicted. */
  lemma RecencyRefresh(x: Bitmap)
    requires SizeOf(x) == 1
    ensures Store(Empty, "a", x, 2) == LruState(["a"], map["a" := x])
    ensures Store(LruState(["a"], map["a" := x]), "b", x, 2)
            == LruState(["a", "b"], map["a" := x, "b" := x])
    ensures Access(LruState(["a", "b"], map["a" := x, "b" := x]), "a")
            == LruState(["b", "a"], map["a" := x, "b" := x])
    ensures Store(LruState(["b", "a"], map["a" := x, "b" := x]), "c", x, 2)
            == LruState(["a", "c"], map["a" := x, "c" := x])
  {
    FillTwoSlots(x);
    GetRefreshesEldest(x);
    ThirdPutEvictsEldest(x);
  }

  lemma FillTwoSlots(x: Bitmap)
    requires SizeOf(x) == 1
    ensures Store(Empty, "a", x, 2) == LruState(["a"], map["a" := x])
    ensures Store(LruState(["a"], map["a" := x]), "b", x, 2)
            == LruState(["a", "b"], map["a" := x, "b" := x])
  {
    assert Used(Empty) == 0;
    StoreWithRoom(Empty, "a", x, 2);
    assert Empty.order + ["a"] == ["a"] && Empty.values["a" := x] == map["a" := x];
    var s1 := LruState(["a"], map["a" := x]);
    assert Used(s1) == 1 by {
      assert s1.order[1..] == [];
      assert Used(s1) == UnitsAt(s1.values, "a") + Total([], s1.values);
    }
    assert Consistent(s1);
    StoreWithRoom(s1, "b", x, 2);
    assert s1.order + ["b"] == ["a", "b"];
  }

  lemma GetRefreshesEldest(x: Bitmap)
    ensures Access(LruState(["a", "b"], map["a" := x, "b" := x]), "a")
            == LruState(["b", "a"], map["a" := x, "b" := x])
  {
    assert Touch(["a", "b"], "a") == ["b", "a"] by {
      assert ["a", "b"][1..] == ["b"];
      assert Remove(["a", "b"], "a") == Remove(["b"], "a");
      assert "a" !in ["b"];
    }
  }

  lemma ThirdPutEvictsEldest(x: Bitmap)
    requires SizeOf(x) == 1
    ensures Store(LruState(["b", "a"], map["a" := x, "b" := x]), "c", x, 2)
            == LruState(["a", "c"], map["a" := x, "c" := x])
  {
    var s3 := LruState(["b", "a"], map["a" := x, "b" := x]);
    var m := map["a" := x, "b" := x, "c" := x];
    assert Touch(s3.order, "c") == ["b", "a", "c"] by {
      assert "c" !in s3.order;
    }
    assert Inserted(s3, "c", x) == LruState(["b", "a", "c"], m);
    TrimEvictsOnlyEldest(x);
    assert m - {"b"} == map["a" := x, "c" := x];
  }
}
