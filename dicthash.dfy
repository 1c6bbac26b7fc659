/**
 * DictHash: the open-addressing hash table with linear probing, slots
 * tagged ACTIVE / EMPTY / DELETED, rehashing on a load factor of one half.
 */
module HashTable {
  import opened Wrappers
  import opened Probe
  import Capacity

  class DictHash<K(==), V> {
    /** The Hasher; std::hash is not part of this model, so it is supplied by the owner. */
    const hash: K -> nat
    /** KeyType() and ValueType(): what EMPTY and DELETED slots hold. */
    const defaultKey: K
    const defaultValue: V

    var table: array<Entry<K, V>>
    var tablesize: nat
    /** Count of ACTIVE and DELETED buckets. */
    var currentSize: nat
    /** The slots of table, as a value. */
    ghost var entries: seq<Entry<K, V>>

    ghost predicate Valid()
      reads this, table
    {
      && tablesize == table.Length && entries == table[..]
      && currentSize == Used(entries)
      && (tablesize > 0 ==> 7 <= tablesize && tablesize % 2 == 1 && currentSize * 2 <= tablesize + 1)
      && (tablesize > 0 ==> HasEmpty(entries))
      && Defaults(entries, defaultKey, defaultValue)
    }

    /** The pairs held by ACTIVE slots (a later slot wins for a key that is ACTIVE twice). */
    ghost function Contents(): map<K, V>
      reads this
    {
      ActiveMap(entries)
    }

    /** No tombstones, distinct keys, every key reachable from its home slot. */
    ghost predicate Clean()
      reads this
    {
      Probe.Clean(entries, hash)
    }

    /** What has and the const get find for `key`, as the probe is written. */
    ghost function Find(key: K): Option<V>
      reads this, table
      requires Valid()
    {
      Lookup(entries, hash(key), key)
    }

    constructor (hash: K -> nat, defaultKey: K, defaultValue: V)
      ensures Valid() && Clean() && tablesize == 0 && currentSize == 0 && Contents() == map[]
      ensures this.hash == hash && this.defaultKey == defaultKey && this.defaultValue == defaultValue
      ensures fresh(table)
    {
      this.hash := hash;
      this.defaultKey := defaultKey;
      this.defaultValue := defaultValue;
      table := new Entry<K, V>[0];
      tablesize := 0;
      currentSize := 0;
      entries := [];
    }

    /** getBucket: probe from the home slot to the first EMPTY slot or ACTIVE match, preferring the first tombstone. */
    method GetBucket(key: K) returns (b: nat)
      requires Valid() && tablesize > 0
      ensures b == Locate(entries, hash(key) % tablesize, key)
    {
      ghost var t := table[..];
      var start := hash(key) % tablesize;
      StopWithinLap(t, start, key);
      ghost var stop := FirstStop(t, start, key, 0);
      var bucket := start;
      var deleted: int := -1;
      ghost var j := 0;
      ghost var d := 0;
      while table[bucket].status != Empty
        invariant j <= stop && bucket == Pos(tablesize, start, j)
        invariant d <= j
        invariant forall i :: 0 <= i < d ==> !DeletedAt(t, start, i)
        invariant d < j ==> DeletedAt(t, start, d) && deleted == Pos(tablesize, start, d)
        invariant d == j ==> deleted == -1
        decreases stop - j
      {
        if table[bucket].status == Deleted {
          if deleted == -1 {
            deleted := bucket;
          }
        } else if table[bucket].key == key {
          break;
        }
        assert !StopsAt(t, start, key, j);
        assert (bucket + 1) % tablesize == if bucket + 1 == tablesize then 0 else bucket + 1 by { ModNext(bucket, tablesize); }
        bucket := (bucket + 1) % tablesize;
        j := j + 1;
        if deleted == -1 {
          d := j;
        }
      }
      assert StopsAt(t, start, key, j);
      if deleted != -1 {
        bucket := deleted;
      }
      b := bucket;
    }

    /** has: false on an unallocated table, otherwise whether the probed bucket is ACTIVE. */
    method Has(key: K) returns (r: bool)
      requires Valid()
      ensures r == Find(key).Some?
      ensures r ==> key in Contents()
      ensures Clean() ==> (r <==> key in Contents())
    {
      FoundIsActive(entries, hash(key), key);
      if tablesize == 0 {
        return false;
      }
      var b := GetBucket(key);
      r := table[b].status == Active;
      if Clean() {
        LookupClean(table[..], hash, key);
      }
    }

    /** The const get: NotFound on an unallocated table or when the probed bucket is not ACTIVE. */
    method Get(key: K) returns (r: Result<V>)
      requires Valid()
      ensures r.Ok? <==> Find(key).Some?
      ensures r.Ok? ==> r.value == Find(key).value
      ensures r.Err? ==> r.failure == NotFound
      ensures r.Ok? ==> key in Contents() && exists x :: 0 <= x < |entries| && entries[x] == Entry(Active, key, r.value)
      ensures Clean() ==> r == if key in Contents() then Ok(Contents()[key]) else Err(NotFound)
    {
      FoundIsActive(entries, hash(key), key);
      if tablesize == 0 {
        return Err(NotFound);
      }
      var b := GetBucket(key);
      if Clean() {
        LookupClean(table[..], hash, key);
      }
      if table[b].status != Active {
        return Err(NotFound);
      }
      r := Ok(table[b].value);
    }

    /**
     * The write shared by add and the mutable get: bucket b becomes the
     * ACTIVE entry e, and an EMPTY bucket counts as newly used.
     */
    method Occupy(b: nat, e: Entry<K, V>)
      requires Valid() && b < tablesize && e.status == Active && currentSize * 2 < tablesize
      modifies this`currentSize, this`entries, table
      ensures Valid() && table == old(table) && tablesize == old(tablesize)
      ensures entries == old(entries)[b := e]
      ensures currentSize == old(currentSize) + (if old(entries[b].status) == Empty then 1 else 0)
    {
      ghost var t := table[..];
      if table[b].status == Empty {
        currentSize := currentSize + 1;
      }
      table[b] := e;
      entries := t[b := e];
      assert table[..] == entries;
      UsedUpdate(t, b, e);
      UsedBelowSize(entries);
    }

    /** Turns the probed bucket into an ACTIVE slot holding `key` and `value`. */
    method Store(key: K, value: V)
      requires Valid() && tablesize > 0 && currentSize * 2 < tablesize
      modifies this`currentSize, this`entries, table
      ensures Valid() && table == old(table) && tablesize == old(tablesize)
      ensures var b := old(Locate(entries, hash(key) % tablesize, key));
              && entries == old(entries)[b := Entry(Active, key, value)]
              && currentSize == old(currentSize) + (if old(entries[b].status) == Empty then 1 else 0)
      ensures Find(key) == Some(value)
      ensures old(Clean()) ==> Clean() && Contents() == old(Contents())[key := value]
    {
      ghost var t := entries;
      var b := GetBucket(key);
      LocateActive(t, hash(key) % tablesize, key);
      if table[b].status != Active {
        Occupy(b, Entry(Active, key, value));
      } else {
        Occupy(b, table[b].(value := value));
      }
      StoreLocates(t, hash(key) % tablesize, key, value);
      if Probe.Clean(t, hash) {
        CleanStore(t, hash, key, value);
      }
    }

    /** checksize: rehash when currentSize * 2 >= tablesize, that is, on a load factor of one half or more. */
    method CheckSize()
      requires Valid()
      modifies this`table, this`tablesize, this`currentSize, this`entries
      ensures Valid() && tablesize > 0 && currentSize * 2 < tablesize
      ensures Contents() == old(Contents())
      ensures old(Clean()) ==> Clean()
      ensures old(currentSize * 2 < tablesize) ==>
                table == old(table) && tablesize == old(tablesize) && currentSize == old(currentSize) && entries == old(entries)
      ensures old(currentSize * 2 >= tablesize) ==>
                && fresh(table) && Clean()
                && tablesize == if old(tablesize) == 0 then 7 else 2 * old(tablesize) + 1
    {
      if currentSize * 2 >= tablesize {
        Rehash();
      }
    }

    /** The rehash of checksize: a fresh table of nextprime(2 * tablesize) slots receives every ACTIVE entry, in slot order. */
    method Rehash()
      requires Valid()
      modifies this`table, this`tablesize, this`currentSize, this`entries
      ensures Valid() && Clean() && fresh(table) && currentSize * 2 < tablesize
      ensures tablesize == if old(tablesize) == 0 then 7 else 2 * old(tablesize) + 1
      ensures Contents() == ActiveMap(old(entries))
    {
      var oldtable := table;
      ghost var olds := entries;
      Reallocate();
      ReinsertAll(oldtable, olds);
    }

    /**
     * nextprime(tablesize * 2): 7 for the unallocated table, the next odd
     * number otherwise, and more than twice the ACTIVE entries either way.
     */
    method GrownSize() returns (size: nat)
      requires Valid()
      ensures size == if tablesize == 0 then 7 else 2 * tablesize + 1
      ensures 7 <= size && size % 2 == 1
      ensures 2 * ActiveCount(entries) < size
    {
      size := Capacity.NextPrime(tablesize * 2);
    }

    /** The start of the rehash: tablesize becomes nextprime(2 * tablesize), and a new table replaces the old one. */
    method Reallocate()
      requires Valid()
      modifies this`table, this`tablesize, this`currentSize, this`entries
      ensures Valid() && Clean() && fresh(table) && currentSize == 0 && Contents() == map[]
      ensures tablesize == if old(tablesize) == 0 then 7 else 2 * old(tablesize) + 1
      ensures 2 * ActiveCount(old(entries)) < tablesize
    {
      tablesize := GrownSize();
      Allocate();
    }

    /** table = new Entry[tablesize] and currentSize = 0: every slot is EMPTY with default key and value. */
    method Allocate()
      requires 7 <= tablesize && tablesize % 2 == 1
      modifies this`table, this`currentSize, this`entries
      ensures Valid() && Clean() && fresh(table) && currentSize == 0 && Contents() == map[]
    {
      table := new Entry<K, V>[tablesize](_ => Entry(Empty, defaultKey, defaultValue));
      currentSize := 0;
      entries := table[..];
      AllEmpty(entries, hash);
      UsedBelowSize(entries);
    }

    /** The loop of the rehash: every slot of the old table, in order, goes through Reinsert. */
    method ReinsertAll(oldtable: array<Entry<K, V>>, ghost olds: seq<Entry<K, V>>)
      requires Valid() && Clean() && tablesize > 0 && currentSize == 0 && Contents() == map[]
      requires oldtable[..] == olds && oldtable != table
      requires 2 * ActiveCount(olds) < tablesize
      modifies this`currentSize, this`entries, table
      ensures Valid() && Clean() && table == old(table) && tablesize == old(tablesize)
      ensures currentSize * 2 < tablesize
      ensures Contents() == ActiveMap(olds)
    {
      var i := 0;
      while i < oldtable.Length
        invariant 0 <= i <= oldtable.Length == |olds|
        invariant oldtable[..] == olds && table == old(table)
        invariant Valid() && Clean() && tablesize == old(tablesize)
        invariant currentSize <= ActiveCount(olds[..i])
        invariant Contents() == ActiveMap(olds[..i])
      {
        assert olds[..i + 1] == olds[..i] + [olds[i]];
        ActiveCountPrefix(olds, i + 1);
        Reinsert(olds[..i], oldtable[i]);
        i := i + 1;
      }
      assert olds[..i] == olds;
      ActiveCountPrefix(olds, i);
    }

    /**
     * The body of the rehash loop: an ACTIVE entry of the old table is added
     * to the new one (the checksize inside add finds nothing to do, since the
     * new table is at most half full); other entries are skipped.
     */
    method Reinsert(ghost done: seq<Entry<K, V>>, e: Entry<K, V>)
      requires Valid() && Clean() && tablesize > 0
      requires currentSize <= ActiveCount(done)
      requires 2 * ActiveCount(done + [e]) < tablesize
      requires Contents() == ActiveMap(done)
      modifies this`currentSize, this`entries, table
      ensures Valid() && Clean() && table == old(table) && tablesize == old(tablesize)
      ensures currentSize <= ActiveCount(done + [e])
      ensures Contents() == ActiveMap(done + [e])
    {
      assert (done + [e])[..|done|] == done;
      if e.status == Active {
        // the checksize() at the head of add() would find nothing to do
        assert currentSize * 2 < tablesize;
        Store(e.key, e.value);
      }
    }

    /** add: rehash if needed, then store the pair in the probed bucket. */
    method Add(key: K, value: V)
      requires Valid()
      modifies this`table, this`tablesize, this`currentSize, this`entries, table
      ensures Valid() && tablesize > 0
      ensures table == old(table) || fresh(table)
      ensures Find(key) == Some(value)
      ensures old(Clean()) ==> Clean() && Contents() == old(Contents())[key := value]
      ensures old(currentSize * 2 >= tablesize) ==> Clean() && Contents() == old(Contents())[key := value]
      ensures old(currentSize * 2 < tablesize) ==>
                var b := old(Locate(entries, hash(key) % tablesize, key));
                && table == old(table)
                && entries == old(entries)[b := Entry(Active, key, value)]
                && currentSize == old(currentSize) + (if old(entries[b].status) == Empty then 1 else 0)
    {
      CheckSize();
      Store(key, value);
    }

    /** The mutable get: rehash if needed, then make the probed bucket ACTIVE for `key`, keeping its value. */
    method GetOrCreate(key: K) returns (v: V)
      requires Valid()
      modifies this`table, this`tablesize, this`currentSize, this`entries, table
      ensures Valid() && tablesize > 0
      ensures table == old(table) || fresh(table)
      ensures Find(key) == Some(v)
      ensures key !in old(Contents()) ==> v == defaultValue
      ensures old(Find(key)).None? && old(currentSize * 2 < tablesize) ==> v == defaultValue
      ensures old(Clean()) ==>
                && Clean()
                && v == (if key in old(Contents()) then old(Contents())[key] else defaultValue)
                && Contents() == old(Contents())[key := v]
      ensures old(currentSize * 2 >= tablesize) ==>
                && Clean()
                && v == (if key in old(Contents()) then old(Contents())[key] else defaultValue)
                && Contents() == old(Contents())[key := v]
      ensures old(currentSize * 2 < tablesize) ==>
                var b := old(Locate(entries, hash(key) % tablesize, key));
                && table == old(table)
                && v == old(entries[b].value)
                && entries == old(entries)[b := Entry(Active, key, v)]
                && currentSize == old(currentSize) + (if old(entries[b].status) == Empty then 1 else 0)
    {
      ghost var roomy := currentSize * 2 < tablesize;
      ghost var found := Find(key);
      CheckSize();
      assert roomy ==> Find(key) == found;
      v := Vivify(key);
    }

    /** The part of the mutable get after checksize: the probed bucket becomes ACTIVE for `key`; its value is returned. */
    method Vivify(key: K) returns (v: V)
      requires Valid() && tablesize > 0 && currentSize * 2 < tablesize
      modifies this`currentSize, this`entries, table
      ensures Valid() && table == old(table) && tablesize == old(tablesize)
      ensures var b := old(Locate(entries, hash(key) % tablesize, key));
              && v == old(entries[b].value)
              && entries == old(entries)[b := Entry(Active, key, v)]
              && currentSize == old(currentSize) + (if old(entries[b].status) == Empty then 1 else 0)
      ensures Find(key) == Some(v)
      ensures old(Find(key)).None? ==> v == defaultValue
      ensures key !in old(Contents()) ==> v == defaultValue
      ensures old(Clean()) ==>
                && Clean()
                && v == (if key in old(Contents()) then old(Contents())[key] else defaultValue)
                && Contents() == old(Contents())[key := v]
    {
      ghost var t := entries;
      var b := GetBucket(key);
      LocateActive(t, hash(key) % tablesize, key);
      if table[b].status != Active {
        Occupy(b, table[b].(status := Active, key := key));
      }
      v := table[b].value;
      assert entries == t[b := Entry(Active, key, v)];
      StoreLocates(t, hash(key) % tablesize, key, v);
      if t[b].status == Active {
        ActiveMapHasKey(t, b);
      }
      if Probe.Clean(t, hash) {
        CleanStore(t, hash, key, v);
        if key in ActiveMap(t) {
          LookupClean(t, hash, key);
        }
      }
    }

    /** remove: turn the probed bucket into a tombstone holding default values, if it is ACTIVE. */
    method Remove(key: K)
      requires Valid() && tablesize > 0
      modifies this`entries, table
      ensures Valid() && Find(key) == None
      ensures old(Find(key)).None? ==> entries == old(entries)
      ensures old(Find(key)).Some? ==>
                var b := old(Locate(entries, hash(key) % tablesize, key));
                entries == old(entries)[b := Entry(Deleted, defaultKey, defaultValue)]
    {
      ghost var t := table[..];
      var b := GetBucket(key);
      if table[b].status == Active {
        table[b] := table[b].(status := Deleted, key := defaultKey, value := defaultValue);
        entries := t[b := Entry(Deleted, defaultKey, defaultValue)];
        assert table[..] == entries;
        UsedUpdate(t, b, Entry(Deleted, defaultKey, defaultValue));
        RemoveHides(t, hash(key) % tablesize, key, defaultKey, defaultValue);
      }
    }
    /** begin: an iterator at the first ACTIVE slot, or at tablesize when there is none. */
    method Begin() returns (it: ConstIterator<K, V>)
      requires Valid()
      ensures fresh(it) && it.dict == this && it.current <= tablesize
      ensures it.current < tablesize ==> table[it.current].status == Active
      ensures forall i :: 0 <= i < it.current ==> table[i].status != Active
    {
      var first := 0;
      while first < tablesize && table[first].status != Active
        invariant first <= tablesize
        invariant forall i :: 0 <= i < first ==> table[i].status != Active
      {
        first := first + 1;
      }
      it := new ConstIterator(this, first);
    }

    /** end: the iterator one past the last slot. */
    method End() returns (it: ConstIterator<K, V>)
      ensures fresh(it) && it.dict == this && it.current == tablesize
    {
      it := new ConstIterator(this, tablesize);
    }
  }

  /** const_iterator: a dictionary and a slot index; iteration visits the ACTIVE slots in slot order. */
  class ConstIterator<K(==), V> {
    const dict: DictHash<K, V>
    var current: nat

    constructor (dict: DictHash<K, V>, current: nat)
      ensures this.dict == dict && this.current == current
    {
      this.dict := dict;
      this.current := current;
    }

    /** operator*: the key in the current slot, which is a key of the dictionary when the slot is ACTIVE. */
    function Key(): (k: K)
      reads this, dict, dict.table
      requires dict.Valid() && current < dict.tablesize
      ensures dict.table[current].status == Active ==> k in dict.Contents()
    {
      if dict.table[current].status == Active then
        ActiveMapHasKey(dict.entries, current);
        dict.table[current].key
      else
        dict.table[current].key
    }

    /** operator++: step past the current slot, then on to the next ACTIVE slot or to tablesize. */
    method Next()
      requires dict.Valid()
      modifies this
      ensures current > old(current)
      ensures current < dict.tablesize ==> dict.table[current].status == Active
      ensures current > dict.tablesize ==> current == old(current) + 1
      ensures forall i :: old(current) < i < current ==> i < dict.tablesize && dict.table[i].status != Active
    {
      current := current + 1;
      while current < dict.tablesize && dict.table[current].status != Active
        invariant old(current) < current
        invariant current > dict.tablesize ==> current == old(current) + 1
        invariant forall i :: old(current) < i < current ==> i < dict.tablesize && dict.table[i].status != Active
        decreases dict.tablesize - current
      {
        current := current + 1;
      }
    }

    /** operator!=: a different dictionary or a different slot. */
    function Differs(other: ConstIterator<K, V>): (r: bool)
      reads this, other
      ensures !r ==> current == other.current
    {
      dict != other.dict || current != other.current
    }
  }
}
