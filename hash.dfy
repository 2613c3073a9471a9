/**
 * `HashTable<T>` of hash.h: an array of `size` bucket slots, each null or a list of
 * key/value items, a `count` of the items held and the list `indices` of the slots
 * ever given a bucket.  A bucket is only ever created, never freed, so a slot once
 * given one keeps it even after its items are gone.
 *
 * Keys are byte strings.  `hash` reads each byte as a signed `char` widened to
 * `short`, so bytes from 128 up count as negative, and sums in 64-bit unsigned
 * arithmetic, so the sum wraps modulo 2^64.
 */
module Hashing {
  import opened Wrappers
  import opened Sequences
  import opened Nodes

  newtype byte = x: int | 0 <= x < 256

  type Key = seq<byte>

  /** The modulus of the source's 64-bit `size_t` arithmetic. */
  const Word: int := 0x1_0000_0000_0000_0000

  /** The default number of slots when the constructor is given 0. */
  const DefaultSize: nat := 256

  /** A byte read as a signed `char`. */
  function Signed(b: byte): (r: int)
    ensures -128 <= r < 128 && r % 256 == b as int
  {
    if b < 128 then b as int else b as int - 256
  }

  /** The exact sum the hash loop accumulates: each byte, signed, times its position from 1. */
  function WeightedSum(key: Key): int
    decreases |key|
  {
    if key == [] then 0
    else WeightedSum(key[..|key| - 1]) + |key| * Signed(key[|key| - 1])
  }

  /** `hash(key)`: the weighted sum, wrapped to 64 bits, reduced modulo `size`. */
  function HashOf(key: Key, size: nat): (r: nat)
    requires size > 0
    ensures r < size
  {
    (WeightedSum(key) % Word) % size
  }

  /** A key/value item of a bucket (`HashItem`). */
  datatype Item<V> = Item(key: Key, value: V)

  /** A slot: null, or a bucket whose items are listed head first. */
  type Slot<V> = Option<seq<Item<V>>>

  /** The value stored with the first item of `b` carrying `key`, if any. */
  function BucketFind<V>(b: seq<Item<V>>, key: Key): (r: Option<V>)
    ensures r.None? <==> forall i :: 0 <= i < |b| ==> b[i].key != key
    ensures r.Some? ==> exists i :: 0 <= i < |b| && b[i] == Item(key, r.value)
  {
    if b == [] then None
    else if b[0].key == key then Some(b[0].value)
    else
      var r := BucketFind(b[1..], key);
      assert forall i :: 1 <= i < |b| ==> b[1..][i - 1] == b[i];
      r
  }

  /** The position of the first item of `b` carrying `key`, or `|b|` when none does. */
  function KeyAt<V>(b: seq<Item<V>>, key: Key): (r: nat)
    ensures r <= |b| && forall j :: 0 <= j < r ==> b[j].key != key
    ensures r < |b| ==> b[r].key == key
  {
    if b == [] || b[0].key == key then 0
    else
      var r := KeyAt(b[1..], key);
      assert forall j :: 1 <= j <= r ==> b[1..][j - 1] == b[j];
      1 + r
  }

  /** The items of a slot: none for a null slot. */
  function Items<V>(s: Slot<V>): seq<Item<V>> {
    if s.None? then [] else s.value
  }

  /**
   * The bucket `put(key, value)` leaves: the first item carrying `key` is replaced
   * in place; without one, the item goes at the tail (of an empty list for a
   * slot that had none).
   */
  function BucketPut<V>(b: seq<Item<V>>, key: Key, value: V): seq<Item<V>> {
    var i := KeyAt(b, key);
    if i < |b| then b[i := Item(key, value)] else b + [Item(key, value)]
  }

  /** No key occurs twice in `b`. */
  ghost predicate UniqueKeys<V>(b: seq<Item<V>>) {
    forall i, j :: 0 <= i < j < |b| ==> b[i].key != b[j].key
  }

  /** The number of items a slot holds. */
  function SlotCount<V>(s: Slot<V>): nat {
    match s
    case None => 0
    case Some(b) => |b|
  }

  /** The number of items all slots hold. */
  function Total<V>(slots: seq<Slot<V>>): nat {
    if slots == [] then 0 else Total(slots[..|slots| - 1]) + SlotCount(slots[|slots| - 1])
  }

  /**
   * `get(key)` on the slot `key` hashes to: null for a null slot or an empty bucket,
   * the head's value when the head carries `key`.  Otherwise the source's loop
   * tests the head again and again without advancing, so the call never returns,
   * whether or not `key` is further down the bucket.
   */
  function Lookup<V>(s: Slot<V>, key: Key): (r: Run<Option<V>>)
    ensures r.Done? ==> r.value == if s.None? then None else BucketFind(s.value, key)
    ensures r.Diverges? <==> s.Some? && s.value != [] && s.value[0].key != key
  {
    match s
    case None => Done(None)
    case Some(b) =>
      if b == [] then Done(None)
      else if b[0].key == key then Done(Some(b[0].value))
      else Diverges
  }

  /** Whether `remove(key)` finds `key` in bucket `b`: only its first two items are looked at. */
  function Reaches<V>(b: seq<Item<V>>, key: Key): bool
    requires b != []
  {
    b[0].key == key || (|b| > 1 && b[1].key == key)
  }

  /** The bucket after `remove(key)`: the head, or else the second item, goes when it carries `key`. */
  function BucketRemoved<V>(b: seq<Item<V>>, key: Key): (r: seq<Item<V>>)
    requires b != []
    ensures Reaches(b, key) ==> |r| == |b| - 1
    ensures !Reaches(b, key) ==> r == b
    ensures forall it :: it in r ==> it in b
  {
    if b[0].key == key then b[1..]
    else if |b| > 1 && b[1].key == key then [b[0]] + b[2..]
    else b
  }

  class HashTable<V> {
    const size: nat
    var count: int
    const slots: array<Slot<V>>
    var indices: seq<nat>

    /**
     * Every bucket holds distinct keys that hash to its slot, `count` is the number
     * of items held, and `indices` lists distinct slots that have a bucket.
     */
    ghost predicate Valid()
      reads this, slots
    {
      && size > 0 && slots.Length == size
      && (forall h :: 0 <= h < size && slots[h].Some? ==> BucketFits(slots[h].value, h))
      && count == Total(slots[..])
      && Distinct(indices)
      && (forall j :: 0 <= j < |indices| ==> indices[j] < size && slots[indices[j]].Some?)
    }

    /** Bucket `b` of slot `h` holds distinct keys that hash to `h`. */
    ghost predicate BucketFits(b: seq<Item<V>>, h: int)
      reads this
    {
      size > 0 && UniqueKeys(b) && forall i :: 0 <= i < |b| ==> HashOf(b[i].key, size) == h
    }

    /** The value the table associates with `key`, looked up in the bucket of its slot. */
    ghost function Find(key: Key): Option<V>
      reads this, slots
      requires size > 0 && slots.Length == size
    {
      match slots[HashOf(key, size)]
      case None => None
      case Some(b) => BucketFind(b, key)
    }

    /** `HashTable(N)`: `N` slots, or 256 when `N` is 0, all null; no items, no indices. */
    constructor(n: nat)
      ensures Valid() && fresh(slots)
      ensures size == (if n != 0 then n else DefaultSize) && count == 0 && indices == []
      ensures forall h :: 0 <= h < size ==> slots[h] == None
    {
      size := if n != 0 then n else DefaultSize;
      count := 0;
      var a := new Slot<V>[if n != 0 then n else DefaultSize](_ => None);
      slots := a;
      indices := [];
      new;
      NoItems(a[..]);
    }

    /** `hash(key)`: the source's accumulation loop, wrapping at 64 bits. */
    method Hash(key: Key) returns (r: nat)
      requires size > 0
      ensures r == HashOf(key, size) && r < size
    {
      var multiplier := 1;
      var hashValue := 0;
      var i := 0;
      while i < |key|
        invariant 0 <= i <= |key| && multiplier == i + 1
        invariant hashValue == WeightedSum(key[..i]) % Word
      {
        assert key[..i + 1][..i] == key[..i];
        WrapAdd(WeightedSum(key[..i]), multiplier * Signed(key[i]));
        hashValue := (hashValue + multiplier * Signed(key[i]) % Word) % Word;
        multiplier := multiplier + 1;
        i := i + 1;
      }
      assert key[..i] == key;
      r := hashValue % size;
    }

    /**
     * `put(key, value)`: a null slot gets a new bucket holding the item, is counted
     * and recorded in `indices`; in an existing bucket an item carrying `key` has
     * its value replaced, and otherwise the item is appended and counted.
     */
    method Put(key: Key, value: V)
      requires Valid()
      modifies this, slots
      ensures Valid()
      ensures forall k :: Find(k) == if k == key then Some(value) else old(Find(k))
      ensures count == old(count) + if old(Find(key)).None? then 1 else 0
      ensures var h := HashOf(key, size);
        indices == if old(slots[h]).None? then old(indices) + [h] else old(indices)
      ensures var h := HashOf(key, size);
        slots[..] == old(slots[..])[h := Some(BucketPut(Items(old(slots[h])), key, value))]
    {
      var h := Hash(key);
      ghost var put := BucketPut(Items(slots[h]), key, value);
      if slots[h].None? {
        assert put == [Item(key, value)];
        PutNew(h, key, value);
      } else {
        PutInto(h, key, value);
      }
    }

    /** `put` into a null slot: a new bucket holding the item, counted and recorded in `indices`. */
    method PutNew(h: nat, key: Key, value: V)
      requires Valid() && h == HashOf(key, size) && slots[h].None?
      modifies this, slots
      ensures Valid()
      ensures forall k :: Find(k) == if k == key then Some(value) else old(Find(k))
      ensures count == old(count) + 1 && old(Find(key)).None?
      ensures indices == old(indices) + [h]
      ensures slots[..] == old(slots[..])[h := Some([Item(key, value)])]
    {
      count := count + 1;
      Store(h, Some([Item(key, value)]));
      assert indices[..|indices|] == indices;
      DistinctAppend(indices, [h]);
      indices := indices + [h];
    }

    /**
     * `put` into a slot with a bucket: the bucket is walked for an item carrying
     * `key`, whose value is replaced; without one the item is appended and counted.
     */
    method PutInto(h: nat, key: Key, value: V)
      requires Valid() && h == HashOf(key, size) && slots[h].Some?
      modifies slots, `count
      ensures Valid()
      ensures forall k :: Find(k) == if k == key then Some(value) else old(Find(k))
      ensures count == old(count) + if old(Find(key)).None? then 1 else 0
      ensures slots[..] == old(slots[..])[h := Some(BucketPut(old(slots[h].value), key, value))]
    {
      var i := Position(slots[h].value, key);
      assert i == KeyAt(slots[h].value, key);
      if i < |slots[h].value| {
        ReplaceItem(h, i, key, value);
      } else {
        AppendItem(h, key, value);
      }
    }

    /** `put` finding `key` at position `i` of its bucket: that item's value is replaced. */
    method ReplaceItem(h: nat, i: nat, key: Key, value: V)
      requires Valid() && h == HashOf(key, size) && slots[h].Some?
      requires i < |slots[h].value| && slots[h].value[i].key == key
      requires forall j :: 0 <= j < i ==> slots[h].value[j].key != key
      modifies slots
      ensures Valid()
      ensures forall k :: Find(k) == if k == key then Some(value) else old(Find(k))
      ensures old(Find(key)).Some?
      ensures slots[..] == old(slots[..])[h := Some(old(slots[h].value)[i := Item(key, value)])]
    {
      var b := slots[h].value;
      ReplacedFind(b, i, value);
      assert BucketFind(b, key).Some? by {
        assert b[i].key == key;
      }
      Store(h, Some(b[i := Item(key, value)]));
    }

    /** `put` not finding `key` in its bucket: the item is appended and counted. */
    method AppendItem(h: nat, key: Key, value: V)
      requires Valid() && h == HashOf(key, size) && slots[h].Some?
      requires forall j :: 0 <= j < |slots[h].value| ==> slots[h].value[j].key != key
      modifies slots, `count
      ensures Valid()
      ensures forall k :: Find(k) == if k == key then Some(value) else old(Find(k))
      ensures count == old(count) + 1 && old(Find(key)).None?
      ensures slots[..] == old(slots[..])[h := Some(old(slots[h].value) + [Item(key, value)])]
    {
      var b := slots[h].value;
      var item := Item(key, value);
      AppendedFind(b, item);
      count := count + 1;
      Store(h, Some(b + [item]));
    }

    /**
     * Writes slot `h` of the table, keeping `count` and the bucket invariant: the
     * new bucket must fit the slot, and `count` must already account for it.  Keys
     * of other slots keep their values.
     */
    method Store(h: nat, s: Slot<V>)
      requires size > 0 && slots.Length == size && h < size
      requires s.Some? ==> BucketFits(s.value, h)
      requires forall g :: 0 <= g < size && g != h && slots[g].Some? ==> BucketFits(slots[g].value, g)
      requires count == Total(slots[..]) - SlotCount(slots[h]) + SlotCount(s)
      requires slots[h].Some? ==> s.Some?
      modifies slots
      ensures slots[..] == old(slots[..])[h := s]
      ensures forall g :: 0 <= g < size && slots[g].Some? ==> BucketFits(slots[g].value, g)
      ensures count == Total(slots[..])
      ensures forall g :: 0 <= g < size && old(slots[g]).Some? ==> slots[g].Some?
      ensures forall k :: HashOf(k, size) != h ==> Find(k) == old(Find(k))
      ensures forall k :: HashOf(k, size) == h ==> Find(k) == if s.None? then None else BucketFind(s.value, k)
    {
      TotalUpdate(slots[..], h, s);
      slots[h] := s;
    }

    /**
     * `get(key)`: the lookup of the key in its slot.  The source loop never moves
     * past the bucket head, so a key stored further down is never returned.
     */
    function Get(key: Key): (r: Run<Option<V>>)
      reads this, slots
      requires Valid()
      ensures r.Done? ==> r.value == Find(key)
      ensures var s := slots[HashOf(key, size)];
        r.Diverges? <==> s.Some? && s.value != [] && s.value[0].key != key
    {
      Lookup(slots[HashOf(key, size)], key)
    }

    /**
     * `remove(key)`: first the slot's index is taken out of `indices`, whether or
     * not other keys stay in its bucket; then the bucket head is dropped if it
     * carries `key`, else the second item if it does, and `count` drops with it.
     * A key further down stays.  The source reads the bucket head, its successor
     * and the head of `indices` unconditionally, so they must exist.
     */
    method Remove(key: Key)
      requires Valid()
      requires slots[HashOf(key, size)].Some? && slots[HashOf(key, size)].value != [] && indices != []
      modifies this, slots
      ensures Valid()
      ensures var h := HashOf(key, size); indices == RemoveFirst(old(indices), h)
      ensures var b := old(slots[HashOf(key, size)].value);
        && slots[HashOf(key, size)] == Some(BucketRemoved(b, key))
        && count == old(count) - (if Reaches(b, key) then 1 else 0)
        && Find(key) == (if Reaches(b, key) then None else old(Find(key)))
      ensures forall k :: k != key ==> Find(k) == old(Find(k))
      ensures var h := HashOf(key, size);
        slots[..] == old(slots[..])[h := Some(BucketRemoved(old(slots[h].value), key))]
    {
      var h := Hash(key);
      RemoveIndex(h);
      RemoveItem(h, key);
    }

    /**
     * The bucket half of `remove(key)`: the head of the bucket of slot `h` goes if it
     * carries `key`, else the second item if it does, and `count` drops with it.
     */
    method RemoveItem(h: nat, key: Key)
      requires Valid() && h == HashOf(key, size) && slots[h].Some? && slots[h].value != []
      modifies slots, `count
      ensures Valid()
      ensures var b := old(slots[h].value);
        && slots[h] == Some(BucketRemoved(b, key))
        && count == old(count) - (if Reaches(b, key) then 1 else 0)
        && Find(key) == (if Reaches(b, key) then None else old(Find(key)))
      ensures forall k :: k != key ==> Find(k) == old(Find(k))
      ensures slots[..] == old(slots[..])[h := Some(BucketRemoved(old(slots[h].value), key))]
    {
      var b := slots[h].value;
      var b' := BucketRemoved(b, key);
      if Reaches(b, key) {
        count := count - 1;
      }
      RemovedFind(b, key);
      assert BucketFits(b', h) by {
        forall i, j | 0 <= i < j < |b'| ensures b'[i].key != b'[j].key {
          RemovedUnique(b, key, i, j);
        }
      }
      Store(h, Some(b'));
    }

    /** Takes the first occurrence of `h` out of `indices`. */
    method RemoveIndex(h: nat)
      requires Valid() && indices != []
      modifies this
      ensures Valid() && indices == RemoveFirst(old(indices), h) && count == old(count)
    {
      RemoveFirstKeeps(indices, h);
      indices := Unlisted(indices, h);
      forall j | 0 <= j < |indices| ensures indices[j] < size && slots[indices[j]].Some? {
        assert indices[j] in RemoveFirst(old(indices), h);
      }
    }
  }

  /** The walk of `put` down a bucket: the position of the first item carrying `key`, or `|b|`. */
  method Position<V>(b: seq<Item<V>>, key: Key) returns (i: nat)
    ensures i <= |b| && forall j :: 0 <= j < i ==> b[j].key != key
    ensures i < |b| ==> b[i].key == key
  {
    i := 0;
    while i < |b|
      invariant i <= |b|
      invariant forall j :: 0 <= j < i ==> b[j].key != key
    {
      if b[i].key == key {
        return;
      }
      i := i + 1;
    }
  }

  /**
   * The scan of `remove` over the index list: the head is dropped when it is `h`,
   * else the list is walked for the first cell holding `h`, which is unlinked.  The
   * source moves the list's tail back when the tail holds the value `h`; the slots
   * listed are distinct, so that is exactly when the cell unlinked was the tail.
   */
  method Unlisted(s: seq<nat>, h: nat) returns (r: seq<nat>)
    requires s != []
    ensures r == RemoveFirst(s, h)
  {
    if s[0] == h {
      RemoveFirstAt(s, h, 0);
      return s[1..];
    }
    var k := 1;
    while k < |s|
      invariant 1 <= k <= |s|
      invariant h !in s[..k]
    {
      if s[k] == h {
        RemoveFirstAt(s, h, k);
        return s[..k] + s[k + 1..];
      }
      assert s[..k + 1] == s[..k] + [s[k]];
      k := k + 1;
    }
    assert s[..k] == s;
    return s;
  }

  // ---------------------------------------------------------------------------
  // Lemmas
  // ---------------------------------------------------------------------------

  /** Adding to a sum wrapped at 64 bits wraps like adding to the exact sum. */
  lemma WrapAdd(a: int, b: int)
    ensures (a % Word + b % Word) % Word == (a + b) % Word
  {
    var qa, qb := a / Word, b / Word;
    assert a == qa * Word + a % Word;
    assert b == qb * Word + b % Word;
    assert a + b == (qa + qb) * Word + (a % Word + b % Word);
    ShiftMod(a % Word + b % Word, qa + qb);
  }

  /** Adding a multiple of the modulus does not change the remainder. */
  lemma {:induction false} ShiftMod(x: int, q: int)
    ensures (q * Word + x) % Word == x % Word
    decreases if q < 0 then -q else q
  {
    if q > 0 {
      ShiftMod(x, q - 1);
      assert q * Word + x == (q - 1) * Word + x + Word;
    } else if q < 0 {
      ShiftMod(x, q + 1);
      assert q * Word + x == (q + 1) * Word + x - Word;
    }
  }

  /** A table of null slots holds no items. */
  lemma {:induction false} NoItems<V>(s: seq<Slot<V>>)
    requires forall h :: 0 <= h < |s| ==> s[h] == None
    ensures Total(s) == 0
    decreases |s|
  {
    if s != [] {
      NoItems(s[..|s| - 1]);
    }
  }

  /** Writing one slot changes the item total by the difference of the two slots' counts. */
  lemma {:induction false} TotalUpdate<V>(s: seq<Slot<V>>, h: int, x: Slot<V>)
    requires 0 <= h < |s|
    ensures Total(s[h := x]) == Total(s) - SlotCount(s[h]) + SlotCount(x)
    decreases |s|
  {
    var n := |s| - 1;
    if h < n {
      assert s[h := x][..n] == s[..n][h := x];
      TotalUpdate(s[..n], h, x);
    } else {
      assert s[h := x][..n] == s[..n];
    }
  }

  /** Replacing the value of the first item carrying a key changes that key's value only. */
  lemma {:induction false} ReplacedFind<V>(b: seq<Item<V>>, i: int, v: V)
    requires 0 <= i < |b| && forall j :: 0 <= j < i ==> b[j].key != b[i].key
    ensures forall k ::
      BucketFind(b[i := Item(b[i].key, v)], k) == if k == b[i].key then Some(v) else BucketFind(b, k)
    decreases i
  {
    var key := b[i].key;
    var b' := b[i := Item(key, v)];
    if i > 0 {
      forall j | 0 <= j < i - 1 ensures b[1..][j].key != b[1..][i - 1].key {
        assert b[1..][j] == b[j + 1];
      }
      ReplacedFind(b[1..], i - 1, v);
      assert b'[1..] == b[1..][i - 1 := Item(key, v)];
      forall k ensures BucketFind(b', k) == if k == key then Some(v) else BucketFind(b, k) {
        if k != b[0].key {
          assert BucketFind(b', k) == BucketFind(b'[1..], k);
          assert BucketFind(b, k) == BucketFind(b[1..], k);
        }
      }
    } else {
      assert b'[1..] == b[1..];
      assert b'[0] == Item(key, v) && b' != [];
      forall k ensures BucketFind(b', k) == if k == key then Some(v) else BucketFind(b, k) {
        if k != key {
          assert BucketFind(b', k) == BucketFind(b'[1..], k);
          assert BucketFind(b, k) == BucketFind(b[1..], k);
        }
      }
    }
  }

  /** Appending an item whose key is new gives that key its value and changes nothing else. */
  lemma {:induction false} AppendedFind<V>(b: seq<Item<V>>, it: Item<V>)
    requires forall j :: 0 <= j < |b| ==> b[j].key != it.key
    ensures forall k :: BucketFind(b + [it], k) == if k == it.key then Some(it.value) else BucketFind(b, k)
    decreases |b|
  {
    if b != [] {
      AppendedFind(b[1..], it);
      assert (b + [it])[1..] == b[1..] + [it];
    }
  }

  /**
   * What `put` leaves of a bucket: `key` now has `value`, every other key keeps
   * its value, and the bucket grows by one item exactly when `key` was absent.
   */
  lemma PutFind<V>(b: seq<Item<V>>, key: Key, value: V)
    ensures forall k :: BucketFind(BucketPut(b, key, value), k) == if k == key then Some(value) else BucketFind(b, k)
    ensures |BucketPut(b, key, value)| == |b| + if BucketFind(b, key).None? then 1 else 0
  {
    var i := KeyAt(b, key);
    if i < |b| {
      ReplacedFind(b, i, value);
    } else {
      AppendedFind(b, Item(key, value));
    }
  }

  /**
   * `get(key)` right after `put(key, value)` on the same slot returns `value` when
   * the bucket was empty or its head carries `key`; otherwise the head still
   * carries another key, and the `get` never returns.
   */
  lemma PutThenGet<V>(s: Slot<V>, key: Key, value: V)
    ensures var r := Lookup(Some(BucketPut(Items(s), key, value)), key);
      && (Items(s) == [] || Items(s)[0].key == key ==> r == Done(Some(value)))
      && (Items(s) != [] && Items(s)[0].key != key ==> r == Diverges)
  {
    var b := Items(s);
    var b' := BucketPut(b, key, value);
    if b != [] {
      assert b'[0] == if b[0].key == key then Item(key, value) else b[0];
    }
  }

  /** What `remove` leaves of a bucket with distinct keys: `key` gone if it was reached, every other key as before. */
  lemma RemovedFind<V>(b: seq<Item<V>>, key: Key)
    requires b != [] && UniqueKeys(b)
    ensures forall k :: k != key ==> BucketFind(BucketRemoved(b, key), k) == BucketFind(b, k)
    ensures BucketFind(BucketRemoved(b, key), key) == if Reaches(b, key) then None else BucketFind(b, key)
  {
    if b[0].key == key {
      assert b == [b[0]] + b[1..];
      forall i | 0 <= i < |b[1..]| ensures b[1..][i].key != key {
        assert b[1..][i] == b[i + 1];
      }
    } else if |b| > 1 && b[1].key == key {
      var r := [b[0]] + b[2..];
      assert r[1..] == b[2..] && b[1..][1..] == b[2..];
      forall i | 0 <= i < |b[2..]| ensures b[2..][i].key != key {
        assert b[2..][i] == b[i + 2];
      }
    }
  }

  /** The bucket `remove` leaves keeps its keys distinct. */
  lemma RemovedUnique<V>(b: seq<Item<V>>, key: Key, i: int, j: int)
    requires b != [] && UniqueKeys(b)
    requires 0 <= i < j < |BucketRemoved(b, key)|
    ensures BucketRemoved(b, key)[i].key != BucketRemoved(b, key)[j].key
  {
    var r := BucketRemoved(b, key);
    if b[0].key == key {
      assert r[i] == b[i + 1] && r[j] == b[j + 1];
    } else if |b| > 1 && b[1].key == key {
      if i == 0 {
        assert r[i] == b[0] && r[j] == b[j + 1];
      } else {
        assert r[i] == b[i + 1] && r[j] == b[j + 1];
      }
    }
  }

  /** Taking an element out of a sequence of distinct elements keeps the rest distinct and adds nothing. */
  lemma RemoveFirstKeeps<T>(s: seq<T>, x: T)
    requires Distinct(s)
    ensures Distinct(RemoveFirst(s, x))
    ensures forall y :: y in RemoveFirst(s, x) ==> y in s
  {
    if x in s {
      var k :| 0 <= k < |s| && s[k] == x;
      assert x !in s[..k] by {
        forall m | 0 <= m < k ensures s[..k][m] != x {
          assert s[m] != s[k];
        }
      }
      RemoveFirstAt(s, x, k);
      var r := s[..k] + s[k + 1..];
      forall y | y in r ensures y in s {
        var i :| 0 <= i < |r| && r[i] == y;
        CutAt(s, k, i);
      }
      forall i, j | 0 <= i < j < |r| ensures r[i] != r[j] {
        CutAt(s, k, i);
        CutAt(s, k, j);
      }
    }
  }

  /** Position `i` of `s` with position `k` cut out. */
  lemma CutAt<T>(s: seq<T>, k: int, i: int)
    requires 0 <= k < |s| && 0 <= i < |s| - 1
    ensures (s[..k] + s[k + 1..])[i] == s[if i < k then i else i + 1]
  {
  }
}
