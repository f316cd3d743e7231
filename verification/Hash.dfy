/** ngx_hash_init and ngx_hash_find: a hash built once, with chained buckets of bounded size. */
module Hash {

  const WORD: nat := 0x1_0000_0000_0000_0000

  /** Sizes of a pointer and of a cache line, in bytes. */
  const WORD_BYTES: nat := 8
  const CACHE_LINE: nat := 64

  datatype Option<T> = None | Some(value: T)

  /** How building a hash ends. */
  datatype Outcome<T> = Success(value: T) | Refused | DivisionByZero

  /** A name and its value: ngx_hash_key_t in the input, ngx_hash_elt_t in a bucket. */
  datatype Elt<V> = Elt(name: string, value: V)

  datatype Table<V> = Table(buckets: seq<seq<Elt<V>>>)

  /** ngx_hash(key, c) over a name. */
  function KeyFrom(key: nat, name: string): (k: nat)
    ensures name != [] ==> k < WORD
    decreases |name|
  {
    if name == [] then key else KeyFrom((key * 31 + name[0] as nat) % WORD, name[1..])
  }

  function Key(name: string): nat {
    KeyFrom(0, name)
  }

  /** Every byte multiplies the key of those before it by 31 and is added to it, in a machine word. */
  lemma {:induction false} KeyAppend(key: nat, name: string, c: char)
    ensures KeyFrom(key, name + [c]) == (KeyFrom(key, name) * 31 + c as nat) % 0x1_0000_0000_0000_0000
    decreases |name|
  {
    if name == [] {
      assert name + [c] == [c] && KeyFrom((key * 31 + c as nat) % WORD, [c][1..]) == (key * 31 + c as nat) % WORD;
    } else {
      KeyAppend((key * 31 + name[0] as nat) % WORD, name[1..], c);
      assert (name + [c])[1..] == name[1..] + [c];
    }
  }

  method HashKey(name: string) returns (key: nat)
    ensures key == Key(name)
  {
    key := 0;
    var i := 0;
    while i < |name|
      invariant 0 <= i <= |name| && KeyFrom(key, name[i..]) == Key(name)
    {
      key := (key * 31 + name[i] as nat) % WORD;
      i := i + 1;
    }
  }

  /** The value of the first element with a name. */
  function Lookup<V>(elts: seq<Elt<V>>, name: string): Option<V> {
    if elts == [] then None else if elts[0].name == name then Some(elts[0].value) else Lookup(elts[1..], name)
  }

  /** The bucket for a name. */
  function Place(name: string, size: nat): (b: nat)
    requires size > 0
    ensures b < size
  {
    Key(name) % size
  }

  /** The elements of bucket b of a hash of some size. */
  function Bucket<V>(elts: seq<Elt<V>>, b: nat, size: nat): seq<Elt<V>>
    requires size > 0
  {
    if elts == [] then []
    else Bucket(elts[..|elts| - 1], b, size) +
         if Place(elts[|elts| - 1].name, size) == b then [elts[|elts| - 1]] else []
  }

  /** A hash holds elements, each in its bucket. */
  ghost predicate Holds<V>(t: Table<V>, elts: seq<Elt<V>>) {
    |t.buckets| > 0 && forall b :: 0 <= b < |t.buckets| ==> t.buckets[b] == Bucket(elts, b, |t.buckets|)
  }

  lemma {:induction false} LookupJoined<V>(a: seq<Elt<V>>, b: seq<Elt<V>>, name: string)
    ensures Lookup(a + b, name) == if Lookup(a, name).Some? then Lookup(a, name) else Lookup(b, name)
  {
    if a == [] {
      assert a + b == b;
    } else {
      LookupJoined(a[1..], b, name);
      assert (a + b)[1..] == a[1..] + b;
    }
  }

  /** A name is found in its bucket if it is there at all. */
  lemma {:induction false} BucketLookup<V>(elts: seq<Elt<V>>, name: string, size: nat)
    requires size > 0
    ensures Lookup(Bucket(elts, Place(name, size), size), name) == Lookup(elts, name)
  {
    if elts != [] {
      var front, last := elts[..|elts| - 1], elts[|elts| - 1];
      BucketLookup(front, name, size);
      assert elts == front + [last];
      LookupJoined(front, [last], name);
      LookupJoined(Bucket(front, Place(name, size), size), [last], name);
      var none := Bucket(front, Place(name, size), size) + [];
      assert none == Bucket(front, Place(name, size), size);
    }
  }

  /** What a search of the bucket for a name finds. */
  function Get<V>(t: Table<V>, name: string): Option<V> {
    if t.buckets == [] then None else Lookup(t.buckets[Place(name, |t.buckets|)], name)
  }

  /** It is what a search of the list of all elements finds. */
  lemma GetHeld<V>(t: Table<V>, elts: seq<Elt<V>>, name: string)
    requires Holds(t, elts)
    ensures Get(t, name) == Lookup(elts, name)
  {
    BucketLookup(elts, name, |t.buckets|);
  }

  /** ngx_hash_find */
  method Find<V>(t: Table<V>, name: string) returns (r: Option<V>)
    requires t.buckets != []
    ensures r == Get(t, name)
  {
    var b := PlaceOf(name, |t.buckets|);
    var bucket := t.buckets[b];
    var i := 0;
    while i < |bucket|
      invariant 0 <= i <= |bucket| && Lookup(bucket, name) == Lookup(bucket[i..], name)
    {
      if bucket[i].name == name {
        return Some(bucket[i].value);
      }
      i := i + 1;
    }
    r := None;
  }

  /* ---- the size of a hash ---- */

  function Align(n: nat, a: nat): nat
    requires a > 0
  {
    (n + a - 1) / a * a
  }

  /** NGX_HASH_ELT_SIZE */
  function EltSize(name: string): nat {
    WORD_BYTES + Align(|name| + 2, WORD_BYTES)
  }

  /** An element is the least number of machine words that holds a pointer, a length of two bytes and the name. */
  lemma EltRoom(name: string)
    ensures EltSize(name) % 8 == 0 && 8 + 2 + |name| <= EltSize(name) < 8 + 2 + |name| + 8
  {
    var n := |name| + 9;
    assert n / 8 * 8 <= n < n / 8 * 8 + 8;
  }

  function Bytes<V>(bucket: seq<Elt<V>>): nat {
    if bucket == [] then 0 else Bytes(bucket[..|bucket| - 1]) + EltSize(bucket[|bucket| - 1].name)
  }

  /** Whether every bucket of a hash of a size fits. */
  ghost predicate Fits<V>(elts: seq<Elt<V>>, size: nat, limit: nat)
    requires size > 0
  {
    forall b :: 0 <= b < size ==> Bytes(Bucket(elts, b, size)) <= limit
  }

  lemma {:induction false} BytesGrow<V>(elts: seq<Elt<V>>, n: nat, b: nat, size: nat)
    requires size > 0 && n <= |elts|
    ensures Bytes(Bucket(elts[..n], b, size)) <= Bytes(Bucket(elts, b, size))
    decreases |elts|
  {
    if n < |elts| {
      var front := elts[..|elts| - 1];
      BytesGrow(front, n, b, size);
      assert front[..n] == elts[..n];
      BytesOne(elts, b, size);
    } else {
      assert elts[..n] == elts;
    }
  }

  /** What the last element adds to its bucket. */
  lemma BytesOne<V>(elts: seq<Elt<V>>, b: nat, size: nat)
    requires size > 0 && elts != []
    ensures var front, last := elts[..|elts| - 1], elts[|elts| - 1];
      Bytes(Bucket(elts, b, size)) ==
        Bytes(Bucket(front, b, size)) + if Place(last.name, size) == b then EltSize(last.name) else 0
  {
    var front, last := elts[..|elts| - 1], elts[|elts| - 1];
    var bucket := Bucket(front, b, size);
    assert (bucket + [last])[..|bucket|] == bucket;
    assert bucket + [] == bucket;
  }

  /** Tries one size; the counters are those of the buckets. */
  method TrySize<V>(elts: seq<Elt<V>>, size: nat, limit: nat) returns (fits: bool)
    requires size > 0
    ensures fits <==> Fits(elts, size, limit)
  {
    hide EltSize;
    hide Place;
    hide Load;
    hide Counted;
    var test := new nat[size](_ => 0);
    var n := 0;
    NoLoad(elts, test[..], limit);
    while n < |elts|
      invariant 0 <= n <= |elts| && Counted(elts, n, test[..], limit)
    {
      ghost var before := test[..];
      var key := PlaceOf(elts[n].name, size);
      var len: nat := test[key] + EltSize(elts[n].name);
      LoadNext(elts, n, key, size);
      CountOne(elts, n, before, limit, key);
      if len > limit {
        LoadGrow(elts, n + 1, key, size);
        return false;
      }
      test[key] := len;
      CountNext(elts, n, before, limit, key);
      assert test[..] == before[key := len];
      n := n + 1;
    }
    CountedAll(elts, test[..], limit);
    fits := true;
  }

  /** The counters are the loads of the buckets after the first n elements. */
  ghost predicate Counted<V>(elts: seq<Elt<V>>, n: nat, test: seq<nat>, limit: nat)
    requires n <= |elts| && test != []
  {
    forall b {:trigger CountedAt(elts, n, test, limit, b)} :: 0 <= b < |test| ==> CountedAt(elts, n, test, limit, b)
  }

  /** One of the counters. */
  ghost predicate CountedAt<V>(elts: seq<Elt<V>>, n: nat, test: seq<nat>, limit: nat, b: int)
    requires n <= |elts| && 0 <= b < |test|
  {
    test[b] == Load(elts, n, b, |test|) <= limit
  }

  lemma CountOne<V>(elts: seq<Elt<V>>, n: nat, test: seq<nat>, limit: nat, key: nat)
    requires n <= |elts| && key < |test| && Counted(elts, n, test, limit)
    ensures test[key] == Load(elts, n, key, |test|) <= limit
  {
    assert CountedAt(elts, n, test, limit, key);
  }

  lemma CountNext<V>(elts: seq<Elt<V>>, n: nat, test: seq<nat>, limit: nat, key: nat)
    requires n < |elts| && test != [] && Counted(elts, n, test, limit) && key == Place(elts[n].name, |test|)
    requires test[key] + EltSize(elts[n].name) <= limit
    ensures Counted(elts, n + 1, test[key := test[key] + EltSize(elts[n].name)], limit)
  {
    var m, after := n + 1, test[key := test[key] + EltSize(elts[n].name)];
    forall b | 0 <= b < |test| ensures CountedAt(elts, m, after, limit, b) {
      hide Load;
      CountOne(elts, n, test, limit, b);
      LoadNext(elts, n, b, |test|);
    }
  }

  lemma CountedAll<V>(elts: seq<Elt<V>>, test: seq<nat>, limit: nat)
    requires test != [] && Counted(elts, |elts|, test, limit)
    ensures Fits(elts, |test|, limit)
  {
    assert elts[..|elts|] == elts;
    forall b | 0 <= b < |test| ensures Bytes(Bucket(elts, b, |test|)) <= limit {
      CountOne(elts, |elts|, test, limit, b);
    }
  }

  /** key % size */
  method PlaceOf(name: string, size: nat) returns (b: nat)
    requires size > 0
    ensures b == Place(name, size)
  {
    b := HashKey(name);
    b := b % size;
  }

  /** The bytes of bucket b after the first n elements. */
  ghost function Load<V>(elts: seq<Elt<V>>, n: nat, b: nat, size: nat): nat
    requires size > 0 && n <= |elts|
  {
    Bytes(Bucket(elts[..n], b, size))
  }

  lemma NoLoad<V>(elts: seq<Elt<V>>, test: seq<nat>, limit: nat)
    requires test != [] && forall b :: 0 <= b < |test| ==> test[b] == 0
    ensures Counted(elts, 0, test, limit)
  {
    forall b | 0 <= b < |test| ensures CountedAt(elts, 0, test, limit, b) {
      LoadNone(elts, b, |test|);
    }
  }

  lemma LoadNone<V>(elts: seq<Elt<V>>, b: nat, size: nat)
    requires size > 0
    ensures Load(elts, 0, b, size) == 0
  {
    hide Place;
    assert elts[..0] == [];
  }

  lemma LoadNext<V>(elts: seq<Elt<V>>, n: nat, b: nat, size: nat)
    requires size > 0 && n < |elts|
    ensures Load(elts, n + 1, b, size) ==
        Load(elts, n, b, size) + if Place(elts[n].name, size) == b then EltSize(elts[n].name) else 0
  {
    assert elts[..n + 1][..n] == elts[..n];
    BytesOne(elts[..n + 1], b, size);
  }

  lemma LoadGrow<V>(elts: seq<Elt<V>>, n: nat, b: nat, size: nat)
    requires size > 0 && n <= |elts|
    ensures Load(elts, n, b, size) <= Bytes(Bucket(elts, b, size))
  {
    BytesGrow(elts, n, b, size);
  }

  /** The first size from start on for which every bucket fits, or the greatest allowed. */
  method ChooseSize<V>(elts: seq<Elt<V>>, start: nat, maxSize: nat, limit: nat) returns (size: nat)
    requires 0 < start && 0 < maxSize
    ensures 0 < size <= maxSize
    ensures if SomeSize(elts, start, maxSize, limit) then start <= size && Fits(elts, size, limit) else size == maxSize
    ensures forall s :: start <= s < size ==> !Fits(elts, s, limit)
  {
    size := start;
    while size <= maxSize
      invariant start <= size && forall s :: start <= s < size ==> !Fits(elts, s, limit)
      decreases maxSize + 1 - size
    {
      var fits := TrySize(elts, size, limit);
      if fits {
        return;
      }
      size := size + 1;
    }
    size := maxSize;
  }

  /** The greatest size of a bucket that 16 bits can count. */
  const BUCKET_LIMIT: nat := 65536 - CACHE_LINE - WORD_BYTES

  function Div(a: nat, b: nat): nat
    requires b > 0
  {
    a / b
  }

  /** The size that is tried first. */
  function StartSize(count: nat, maxSize: nat, limit: nat): (start: nat)
    requires limit >= 2 * WORD_BYTES
    ensures start > 0
  {
    var start := Div(count, limit / (2 * WORD_BYTES));
    if maxSize > 10000 && count > 0 && Div(maxSize, count) < 100 then maxSize - 1000
    else if start != 0 then start else 1
  }

  /** The size that is tried first is a thousand below the greatest if that one is large and there are many names,
      and otherwise such that the names, if they were short and evenly spread, would just fit. */
  lemma StartIs(count: nat, maxSize: nat, limit: nat)
    requires limit >= 16
    ensures var start, k := StartSize(count, maxSize, limit), limit / 16;
      if maxSize > 10000 && 0 < count && maxSize < 100 * count then start == maxSize - 1000
      else start >= 1 && (start == 1 || start * k <= count) && count < (start + 1) * k
  {
    Quotient(count, limit / 16);
    if count > 0 {
      Quotient(maxSize, count);
      Hundred(maxSize, count, Div(maxSize, count));
    }
    hide Div;
  }

  lemma Quotient(a: nat, b: nat)
    requires b > 0
    ensures Div(a, b) * b <= a < (Div(a, b) + 1) * b
  {
  }

  lemma Hundred(a: nat, b: nat, q: nat)
    requires q * b <= a < (q + 1) * b
    ensures q < 100 <==> a < 100 * b
  {
    if q < 100 {
      assert (q + 1) * b <= 100 * b;
    } else {
      assert 100 * b <= q * b;
    }
  }

  /** What is left of a bucket for elements, counted in machine words. */
  function Room(bucketSize: nat): nat
    requires bucketSize <= 65536
  {
    (bucketSize + WORD - WORD_BYTES) % WORD
  }

  /** Every name fits into a bucket of its own. */
  predicate NamesFit<V>(elts: seq<Elt<V>>, bucketSize: nat) {
    forall i :: 0 <= i < |elts| ==> EltSize(elts[i].name) + 8 <= bucketSize
  }

  /** Without names, nothing keeps a bucket without room for an element from being a divisor. */
  predicate DividesByZero(count: nat, maxSize: nat, bucketSize: nat) {
    count == 0 && maxSize > 0 && 8 <= bucketSize < 24
  }

  /** When a hash can be built: the sizes are allowed, every name fits into a bucket, and either some size from the
      first one on makes all buckets fit or, at the greatest size, 16 bits can count the bytes of every bucket. */
  ghost predicate Buildable<V>(elts: seq<Elt<V>>, maxSize: nat, bucketSize: nat) {
    && maxSize > 0 && bucketSize <= 65472 && NamesFit(elts, bucketSize)
    && !DividesByZero(|elts|, maxSize, bucketSize)
    && (bucketSize >= 24 && elts != [] ==>
          || SomeSize(elts, StartSize(|elts|, maxSize, bucketSize - 8), maxSize, bucketSize - 8)
          || Fits(elts, maxSize, 65464))
  }

  ghost predicate SomeSize<V>(elts: seq<Elt<V>>, start: nat, maxSize: nat, limit: nat)
    requires start > 0
  {
    exists size :: start <= size <= maxSize && Fits(elts, size, limit)
  }

  lemma FitsMore<V>(elts: seq<Elt<V>>, size: nat, limit: nat, more: nat)
    requires size > 0 && limit <= more && Fits(elts, size, limit)
    ensures Fits(elts, size, more)
  {
  }

  /** Only names matter to that. */
  ghost predicate SameNames<V, W>(a: seq<Elt<V>>, b: seq<Elt<W>>) {
    |a| == |b| && forall i :: 0 <= i < |a| ==> a[i].name == b[i].name
  }

  lemma {:induction false} SameBytes<V, W>(a: seq<Elt<V>>, b: seq<Elt<W>>, at: nat, size: nat)
    requires SameNames(a, b) && size > 0
    ensures Bytes(Bucket(a, at, size)) == Bytes(Bucket(b, at, size))
    decreases |a|
  {
    hide EltSize;
    hide Place;
    if a != [] {
      SameBytes(a[..|a| - 1], b[..|b| - 1], at, size);
      BytesOne(a, at, size);
      BytesOne(b, at, size);
    }
  }

  lemma SameFits<V, W>(a: seq<Elt<V>>, b: seq<Elt<W>>, size: nat, limit: nat)
    requires SameNames(a, b) && size > 0
    ensures Fits(a, size, limit) <==> Fits(b, size, limit)
  {
    forall at | 0 <= at < size ensures Bytes(Bucket(a, at, size)) == Bytes(Bucket(b, at, size)) {
      SameBytes(a, b, at, size);
    }
  }

  lemma SameBuildable<V, W>(a: seq<Elt<V>>, b: seq<Elt<W>>, maxSize: nat, bucketSize: nat)
    requires SameNames(a, b)
    ensures Buildable(a, maxSize, bucketSize) <==> Buildable(b, maxSize, bucketSize)
  {
    hide Fits;
    hide StartSize;
    hide EltSize;
    if maxSize > 0 && bucketSize >= 3 * WORD_BYTES && a != [] {
      SameFits(a, b, maxSize, BUCKET_LIMIT);
      var limit := bucketSize - WORD_BYTES;
      forall size | StartSize(|a|, maxSize, limit) <= size <= maxSize
        ensures Fits(a, size, limit) <==> Fits(b, size, limit) {
        SameFits(a, b, size, limit);
      }
    }
  }

  /** ngx_hash_init */
  method Init<V>(elts: seq<Elt<V>>, maxSize: nat, bucketSize: nat) returns (r: Outcome<Table<V>>)
    ensures r.Success? ==> Holds(r.value, elts) && |r.value.buckets| <= maxSize
    ensures r.Success? <==> Buildable(elts, maxSize, bucketSize)
    ensures r.DivisionByZero? <==> DividesByZero(|elts|, maxSize, bucketSize)
  {
    hide Fits;
    hide EltSize;
    hide Holds;
    if maxSize == 0 || bucketSize > 65536 - CACHE_LINE {
      return Refused;
    }
    var n := 0;
    while n < |elts|
      invariant 0 <= n <= |elts| && forall i :: 0 <= i < n ==> EltSize(elts[i].name) + WORD_BYTES <= bucketSize
    {
      if bucketSize < EltSize(elts[n].name) + WORD_BYTES {
        return Refused;
      }
      n := n + 1;
    }
    var limit := Room(bucketSize);
    if elts != [] {
      LeastElt(elts[0].name);
    }
    RoomFor(bucketSize);
    if limit / (2 * WORD_BYTES) == 0 {
      return DivisionByZero;
    }
    var start := Div(|elts|, limit / (2 * WORD_BYTES));
    start := if start != 0 then start else 1;
    if maxSize > 10000 && |elts| > 0 && Div(maxSize, |elts|) < 100 {
      start := maxSize - 1000;
    }
    assert start == StartSize(|elts|, maxSize, limit);
    hide StartSize;
    hide Room;
    var size := ChooseSize(elts, start, maxSize, limit);
    if elts == [] {
      NoneFits(elts, size, BUCKET_LIMIT);
    } else if Fits(elts, size, limit) {
      FitsMore(elts, size, limit, BUCKET_LIMIT);
    }
    var table := Fill(elts, size);
    r := if table.Some? then Success(table.value) else Refused;
  }

  lemma RoomFor(bucketSize: nat)
    requires bucketSize <= 65536
    ensures bucketSize >= WORD_BYTES ==> Room(bucketSize) == bucketSize - WORD_BYTES
    ensures bucketSize < WORD_BYTES ==> Room(bucketSize) >= 2 * WORD_BYTES
  {
  }

  lemma NoneFits<V>(elts: seq<Elt<V>>, size: nat, limit: nat)
    requires elts == [] && size > 0
    ensures Fits(elts, size, limit)
  {
  }

  lemma LeastElt(name: string)
    ensures EltSize(name) >= 2 * WORD_BYTES
  {
  }

  /** Lays the elements out bucket by bucket; a bucket that does not fit into 16 bits of bytes is an error. */
  method Fill<V>(elts: seq<Elt<V>>, size: nat) returns (r: Option<Table<V>>)
    requires size > 0
    ensures r.Some? ==> Holds(r.value, elts) && |r.value.buckets| == size
    ensures r.Some? <==> Fits(elts, size, BUCKET_LIMIT)
  {
    var fits := TrySize(elts, size, BUCKET_LIMIT);
    if !fits {
      return None;
    }
    var buckets := seq(size, _ => []);
    var n := 0;
    while n < |elts|
      invariant 0 <= n <= |elts| && |buckets| == size
      invariant forall b :: 0 <= b < size ==> buckets[b] == Bucket(elts[..n], b, size)
    {
      var key := PlaceOf(elts[n].name, size);
      assert elts[..n + 1][..n] == elts[..n];
      buckets := buckets[key := buckets[key] + [elts[n]]];
      n := n + 1;
    }
    assert elts[..n] == elts;
    r := Some(Table(buckets));
  }
}
