/**
 * The linear probe of DictHash::getBucket, stated over the contents of the
 * slot array (a sequence of entries), together with the map that the ACTIVE
 * slots stand for.
 */
module Probe {
  import opened Wrappers

  datatype Status = Active | Empty | Deleted

  /** One bucket of the table: its status, key and value. */
  datatype Entry<K, V> = Entry(status: Status, key: K, value: V)

  /** Slot visited at step `j` of a probe that starts at `start` and wraps around. */
  function Pos(size: nat, start: nat, j: nat): (p: nat)
    requires start < size && j < size
    ensures p < size
    ensures p - start == j || p + size - start == j
  {
    if start + j < size then start + j else start + j - size
  }

  /** The step at which a probe from `start` reaches slot `x`. */
  function Offset(size: nat, start: nat, x: nat): (j: nat)
    requires start < size && x < size
    ensures j < size && Pos(size, start, j) == x
  {
    if start <= x then x - start else x + size - start
  }

  /** Whether the probe for `key` stops at step `j`: an EMPTY slot, or an ACTIVE slot holding `key`. */
  ghost predicate StopsAt<K, V>(t: seq<Entry<K, V>>, start: nat, key: K, j: nat)
    requires start < |t| && j < |t|
  {
    var e := t[Pos(|t|, start, j)];
    e.status == Empty || (e.status == Active && e.key == key)
  }

  ghost predicate DeletedAt<K, V>(t: seq<Entry<K, V>>, start: nat, j: nat)
    requires start < |t| && j < |t|
  {
    t[Pos(|t|, start, j)].status == Deleted
  }

  /** The first step at or after `j` where the probe stops, or |t| if there is none. */
  ghost function FirstStop<K, V>(t: seq<Entry<K, V>>, start: nat, key: K, j: nat): (s: nat)
    requires start < |t| && j <= |t|
    ensures j <= s <= |t|
    ensures s < |t| ==> StopsAt(t, start, key, s)
    ensures forall i :: j <= i < s ==> !StopsAt(t, start, key, i)
    decreases |t| - j
  {
    if j == |t| then |t|
    else if StopsAt(t, start, key, j) then j
    else FirstStop(t, start, key, j + 1)
  }

  /** The first step in [j, limit) at a DELETED slot, or `limit` if there is none. */
  ghost function FirstDeleted<K, V>(t: seq<Entry<K, V>>, start: nat, j: nat, limit: nat): (d: nat)
    requires start < |t| && j <= limit <= |t|
    ensures j <= d <= limit
    ensures d < limit ==> DeletedAt(t, start, d)
    ensures forall i :: j <= i < d ==> !DeletedAt(t, start, i)
    decreases limit - j
  {
    if j == limit then limit
    else if DeletedAt(t, start, j) then j
    else FirstDeleted(t, start, j + 1, limit)
  }

  ghost predicate HasEmpty<K, V>(t: seq<Entry<K, V>>)
  {
    exists x :: 0 <= x < |t| && t[x].status == Empty
  }

  /** With an EMPTY slot somewhere, every probe stops within one lap. */
  lemma StopWithinLap<K, V>(t: seq<Entry<K, V>>, start: nat, key: K)
    requires start < |t| && HasEmpty(t)
    ensures FirstStop(t, start, key, 0) < |t|
  {
    var x :| 0 <= x < |t| && t[x].status == Empty;
    var o := Offset(|t|, start, x);
    assert StopsAt(t, start, key, o);
  }

  /**
   * The bucket getBucket returns: the first DELETED slot before the stop if
   * there is one, otherwise the slot where the probe stopped.
   */
  ghost function Locate<K, V>(t: seq<Entry<K, V>>, start: nat, key: K): (b: nat)
    requires start < |t| && HasEmpty(t)
    ensures b < |t|
  {
    StopWithinLap(t, start, key);
    Pos(|t|, start, FirstDeleted(t, start, 0, FirstStop(t, start, key, 0)))
  }

  /**
   * The order of preference of the probe: `stop` is the first step at an
   * EMPTY slot or at an ACTIVE slot holding `key`; the bucket is the first
   * DELETED slot before `stop` if any, and the slot at `stop` otherwise.
   */
  lemma LocateCases<K, V>(t: seq<Entry<K, V>>, start: nat, key: K) returns (at: nat, stop: nat)
    requires start < |t| && HasEmpty(t)
    ensures at <= stop < |t| && Locate(t, start, key) == Pos(|t|, start, at)
    ensures StopsAt(t, start, key, stop)
    ensures forall i :: 0 <= i < stop ==> !StopsAt(t, start, key, i)
    ensures at < stop ==> DeletedAt(t, start, at)
    ensures forall i :: 0 <= i < at ==> !DeletedAt(t, start, i)
  {
    StopWithinLap(t, start, key);
    stop := FirstStop(t, start, key, 0);
    at := FirstDeleted(t, start, 0, stop);
  }

  /** The value the const lookup finds for `key` in a table whose hash of `key` is `h`. */
  ghost function Lookup<K, V>(t: seq<Entry<K, V>>, h: nat, key: K): Option<V>
    requires |t| > 0 ==> HasEmpty(t)
  {
    if |t| == 0 then None
    else
      var e := t[Locate(t, h % |t|, key)];
      if e.status == Active then Some(e.value) else None
  }

  /** Number of slots that are not EMPTY (ACTIVE or DELETED). */
  function Used<K, V>(t: seq<Entry<K, V>>): (c: nat)
    ensures c <= |t|
  {
    if t == [] then 0
    else Used(t[..|t| - 1]) + (if t[|t| - 1].status == Empty then 0 else 1)
  }

  /** Number of ACTIVE slots. */
  function ActiveCount<K, V>(t: seq<Entry<K, V>>): (c: nat)
    ensures c <= Used(t)
  {
    if t == [] then 0
    else ActiveCount(t[..|t| - 1]) + (if t[|t| - 1].status == Active then 1 else 0)
  }

  /** The key/value pairs of the ACTIVE slots; where a key is ACTIVE twice, the later slot wins. */
  ghost function ActiveMap<K, V>(t: seq<Entry<K, V>>): map<K, V>
  {
    if t == [] then map[]
    else
      var e := t[|t| - 1];
      if e.status == Active then ActiveMap(t[..|t| - 1])[e.key := e.value]
      else ActiveMap(t[..|t| - 1])
  }

  /** EMPTY and DELETED slots hold the default-constructed key and value. */
  ghost predicate Defaults<K, V>(t: seq<Entry<K, V>>, dk: K, dv: V)
  {
    forall i :: 0 <= i < |t| && t[i].status != Active ==> t[i].key == dk && t[i].value == dv
  }

  ghost predicate UniqueKeys<K, V>(t: seq<Entry<K, V>>)
  {
    forall i, j :: 0 <= i < j < |t| && t[i].status == Active && t[j].status == Active ==> t[i].key != t[j].key
  }

  /** No EMPTY slot lies on the probe path from `start` before slot `x`. */
  ghost predicate Reachable<K, V>(t: seq<Entry<K, V>>, start: nat, x: nat)
    requires start < |t| && x < |t|
  {
    forall j :: 0 <= j < Offset(|t|, start, x) ==> t[Pos(|t|, start, j)].status != Empty
  }

  /**
   * A table without tombstones whose ACTIVE keys are distinct and each
   * reachable from its home slot: the shape every rehash produces.
   */
  ghost predicate Clean<K, V>(t: seq<Entry<K, V>>, hash: K -> nat)
  {
    && (forall i :: 0 <= i < |t| ==> t[i].status != Deleted)
    && UniqueKeys(t)
    && (forall x {:trigger HomeReachable(t, hash, x)} ::
          0 <= x < |t| && t[x].status == Active ==> HomeReachable(t, hash, x))
  }

  /** Slot `x` is reachable from the home slot of the key it holds. */
  ghost predicate HomeReachable<K, V>(t: seq<Entry<K, V>>, hash: K -> nat, x: nat)
    requires x < |t|
  {
    Reachable(t, hash(t[x].key) % |t|, x)
  }

  // ---------------------------------------------------------------------
  // Counting lemmas

  /** Fewer used slots than slots means some slot is EMPTY. */
  lemma {:induction false} UsedBelowSize<K, V>(t: seq<Entry<K, V>>)
    requires Used(t) < |t|
    ensures HasEmpty(t)
    decreases |t|
  {
    var last := |t| - 1;
    if t[last].status != Empty {
      UsedBelowSize(t[..last]);
      var x :| 0 <= x < last && t[..last][x].status == Empty;
      assert t[x].status == Empty;
    }
  }

  /** Writing one slot changes the used count only by the EMPTY-ness of the old and new entry. */
  lemma {:induction false} UsedUpdate<K, V>(t: seq<Entry<K, V>>, b: nat, e: Entry<K, V>)
    requires b < |t|
    ensures Used(t[b := e]) + (if t[b].status == Empty then 0 else 1)
         == Used(t) + (if e.status == Empty then 0 else 1)
    decreases |t|
  {
    var last := |t| - 1;
    if b == last {
      assert t[b := e][..last] == t[..last];
    } else {
      assert t[b := e][..last] == t[..last][b := e];
      UsedUpdate(t[..last], b, e);
    }
  }

  /** A table of EMPTY slots is unused, maps nothing and is clean. */
  lemma {:induction false} AllEmpty<K, V>(t: seq<Entry<K, V>>, hash: K -> nat)
    requires forall i :: 0 <= i < |t| ==> t[i].status == Empty
    ensures Used(t) == 0 && ActiveMap(t) == map[] && Clean(t, hash)
    decreases |t|
  {
    if t != [] {
      AllEmpty(t[..|t| - 1], hash);
    }
  }

  // ---------------------------------------------------------------------
  // The map of ACTIVE slots

  /** Storing (k, v) in the slot that holds k, or in a non-ACTIVE slot when k is ACTIVE nowhere, maps k to v. */
  lemma {:induction false} ActiveMapUpdate<K, V>(t: seq<Entry<K, V>>, b: nat, k: K, v: V)
    requires b < |t|
    requires t[b].status == Active ==> t[b].key == k
    requires forall i :: 0 <= i < |t| && i != b && t[i].status == Active ==> t[i].key != k
    ensures ActiveMap(t[b := Entry(Active, k, v)]) == ActiveMap(t)[k := v]
    decreases |t|
  {
    var t' := t[b := Entry(Active, k, v)];
    var last := |t| - 1;
    if b == last {
      assert t'[..last] == t[..last];
    } else {
      assert t'[..last] == t[..last][b := Entry(Active, k, v)];
      ActiveMapUpdate(t[..last], b, k, v);
    }
  }

  /** With distinct keys, every ACTIVE slot's pair is in the map. */
  lemma {:induction false} ActiveMapAt<K, V>(t: seq<Entry<K, V>>, x: nat)
    requires UniqueKeys(t) && x < |t| && t[x].status == Active
    ensures t[x].key in ActiveMap(t) && ActiveMap(t)[t[x].key] == t[x].value
    decreases |t|
  {
    var last := |t| - 1;
    if x < last {
      ActiveMapAt(t[..last], x);
    }
  }

  /** Every key of the map is held by some ACTIVE slot. */
  lemma {:induction false} ActiveMapWitness<K, V>(t: seq<Entry<K, V>>, k: K) returns (x: nat)
    requires k in ActiveMap(t)
    ensures x < |t| && t[x].status == Active && t[x].key == k
    decreases |t|
  {
    var last := |t| - 1;
    if t[last].status == Active && t[last].key == k {
      x := last;
    } else {
      x := ActiveMapWitness(t[..last], k);
    }
  }

  // ---------------------------------------------------------------------
  // The probe after a store or a removal

  /** Storing `key` in the bucket the probe returned makes the probe return that bucket again. */
  lemma StoreLocates<K, V>(t: seq<Entry<K, V>>, start: nat, key: K, v: V)
    requires start < |t| && HasEmpty(t)
    requires HasEmpty(t[Locate(t, start, key) := Entry(Active, key, v)])
    ensures Locate(t[Locate(t, start, key) := Entry(Active, key, v)], start, key) == Locate(t, start, key)
  {
    var b := Locate(t, start, key);
    var t' := t[b := Entry(Active, key, v)];
    var at, stop := LocateCases(t, start, key);
    assert StopsAt(t', start, key, at);
    var s' := FirstStop(t', start, key, 0);
    if s' < at {
      assert StopsAt(t, start, key, s');
    }
    assert s' == at;
    var d' := FirstDeleted(t', start, 0, s');
    if d' < at {
      assert DeletedAt(t, start, d');
    }
  }

  /** Removing the ACTIVE bucket the probe returned leaves a tombstone the probe now returns. */
  lemma RemoveHides<K, V>(t: seq<Entry<K, V>>, start: nat, key: K, dk: K, dv: V)
    requires start < |t| && HasEmpty(t)
    requires t[Locate(t, start, key)].status == Active
    ensures HasEmpty(t[Locate(t, start, key) := Entry(Deleted, dk, dv)])
    ensures var t' := t[Locate(t, start, key) := Entry(Deleted, dk, dv)];
            t'[Locate(t', start, key)].status == Deleted
  {
    var b := Locate(t, start, key);
    var t' := t[b := Entry(Deleted, dk, dv)];
    var x :| 0 <= x < |t| && t[x].status == Empty;
    assert t'[x].status == Empty;
    var at, stop := LocateCases(t, start, key);
    var s' := FirstStop(t', start, key, 0);
    if s' < at {
      assert StopsAt(t, start, key, s');
    }
    assert DeletedAt(t', start, at);
    var d' := FirstDeleted(t', start, 0, s');
  }

  // ---------------------------------------------------------------------
  // Clean tables behave as maps

  /** In a clean table the probe returns the slot holding `key`, or an EMPTY slot when no slot holds it. */
  lemma CleanLocate<K, V>(t: seq<Entry<K, V>>, hash: K -> nat, key: K)
    requires Clean(t, hash) && |t| > 0 && HasEmpty(t)
    ensures var e := t[Locate(t, hash(key) % |t|, key)];
            && e.status != Deleted
            && (e.status == Active ==> e.key == key)
            && (e.status == Empty ==> forall y :: 0 <= y < |t| && t[y].status == Active ==> t[y].key != key)
  {
    var start := hash(key) % |t|;
    var b := Locate(t, start, key);
    var at, stop := LocateCases(t, start, key);
    assert !DeletedAt(t, start, at);
    if t[b].status == Empty {
      forall y | 0 <= y < |t| && t[y].status == Active
        ensures t[y].key != key
      {
        var o := Offset(|t|, start, y);
        assert HomeReachable(t, hash, y);
        assert Pos(|t|, start, stop) == b;
        assert t[y].key == key ==> o <= stop;
        ghost var stopsThere := StopsAt(t, start, key, o);
        assert t[y].key == key && o < stop ==> !stopsThere;
      }
    }
  }

  /** The const lookup of a clean table is the lookup of its map. */
  lemma LookupClean<K, V>(t: seq<Entry<K, V>>, hash: K -> nat, key: K)
    requires Clean(t, hash) && |t| > 0 && HasEmpty(t)
    ensures Lookup(t, hash(key), key) == if key in ActiveMap(t) then Some(ActiveMap(t)[key]) else None
  {
    var b := Locate(t, hash(key) % |t|, key);
    CleanLocate(t, hash, key);
    if key in ActiveMap(t) {
      var x := ActiveMapWitness(t, key);
      ActiveMapAt(t, x);
    } else if t[b].status == Active {
      ActiveMapAt(t, b);
    }
  }

  /** Storing (key, v) in the probed bucket of a clean table keeps it clean and maps key to v. */
  lemma CleanStore<K, V>(t: seq<Entry<K, V>>, hash: K -> nat, key: K, v: V)
    requires Clean(t, hash) && |t| > 0 && HasEmpty(t)
    ensures var t' := t[Locate(t, hash(key) % |t|, key) := Entry(Active, key, v)];
            Clean(t', hash) && ActiveMap(t') == ActiveMap(t)[key := v]
  {
    var start := hash(key) % |t|;
    var b := Locate(t, start, key);
    var t' := t[b := Entry(Active, key, v)];
    CleanLocate(t, hash, key);
    var at, stop := LocateCases(t, start, key);
    assert !DeletedAt(t, start, at);
    forall i | 0 <= i < |t| && i != b && t[i].status == Active
      ensures t[i].key != key
    {
      if t[b].status == Active {
        assert t[b].key == key;
      }
    }
    ActiveMapUpdate(t, b, key, v);
    assert Offset(|t|, start, b) == at;
    forall x | 0 <= x < |t| && t'[x].status == Active
      ensures HomeReachable(t', hash, x)
    {
      if x == b {
        forall j | 0 <= j < at
          ensures t'[Pos(|t|, start, j)].status != Empty
        {
          assert !StopsAt(t, start, key, j);
        }
      } else {
        assert HomeReachable(t, hash, x);
      }
    }
  }

  /** Every ACTIVE slot's key is a key of the map (its value may be overridden by a later slot). */
  lemma {:induction false} ActiveMapHasKey<K, V>(t: seq<Entry<K, V>>, x: nat)
    requires x < |t| && t[x].status == Active
    ensures t[x].key in ActiveMap(t)
    decreases |t|
  {
    var last := |t| - 1;
    if x < last {
      ActiveMapHasKey(t[..last], x);
    }
  }

  /** ActiveCount of a prefix never exceeds that of the whole table. */
  lemma {:induction false} ActiveCountPrefix<K, V>(t: seq<Entry<K, V>>, i: nat)
    requires i <= |t|
    ensures ActiveCount(t[..i]) <= ActiveCount(t)
    decreases |t|
  {
    if i < |t| {
      var last := |t| - 1;
      assert t[..i] == t[..last][..i];
      ActiveCountPrefix(t[..last], i);
    } else {
      assert t[..i] == t;
    }
  }

  /** The probe never returns an ACTIVE slot holding another key. */
  lemma LocateActive<K, V>(t: seq<Entry<K, V>>, start: nat, key: K)
    requires start < |t| && HasEmpty(t)
    ensures t[Locate(t, start, key)].status == Active ==> t[Locate(t, start, key)].key == key
  {
    var at, stop := LocateCases(t, start, key);
  }

  /**
   * Whatever the table, a probe that finds its key ACTIVE found a key of the
   * map view, and some ACTIVE slot holds that key with the value found.
   */
  lemma FoundIsActive<K, V>(t: seq<Entry<K, V>>, h: nat, key: K)
    requires |t| > 0 ==> HasEmpty(t)
    ensures Lookup(t, h, key).Some? ==> key in ActiveMap(t)
    ensures Lookup(t, h, key).Some? ==> exists x :: 0 <= x < |t| && t[x] == Entry(Active, key, Lookup(t, h, key).value)
  {
    if |t| > 0 {
      var b := Locate(t, h % |t|, key);
      LocateActive(t, h % |t|, key);
      if t[b].status == Active {
        ActiveMapHasKey(t, b);
      }
    }
  }

  /**
   * A DELETED slot ahead of a key hides it: the probe for `k` from slot 0
   * settles on the DELETED slot 0, so it finds nothing, although `k` is
   * ACTIVE in slot 1 and so in the map view.
   */
  lemma HiddenKey<K, V>(k: K, v: V, d: K, dv: V)
    ensures var t := [Entry(Deleted, d, dv), Entry(Active, k, v), Entry(Empty, d, dv)];
            HasEmpty(t) && Lookup(t, 0, k) == None && k in ActiveMap(t) && ActiveMap(t)[k] == v
  {
    var t := [Entry(Deleted, d, dv), Entry(Active, k, v), Entry(Empty, d, dv)];
    assert t[2].status == Empty;
    assert !StopsAt(t, 0, k, 0) && StopsAt(t, 0, k, 1);
    assert FirstStop(t, 0, k, 0) == 1;
    assert DeletedAt(t, 0, 0);
    assert Locate(t, 0, k) == 0;
    assert t[..2][..1] == [t[0]];
    ActiveMapHasKey(t, 1);
  }

  /**
   * A key ACTIVE in two slots: the probe finds the first, while the map
   * view keeps the later one, so the two disagree on its value.
   */
  lemma DoubleKey<K, V>(k: K, v: V, w: V, d: K)
    requires v != w
    ensures var t := [Entry(Active, k, v), Entry(Active, k, w), Entry(Empty, d, v)];
            HasEmpty(t) && Lookup(t, 0, k) == Some(v) && k in ActiveMap(t) && ActiveMap(t)[k] == w
  {
    var t := [Entry(Active, k, v), Entry(Active, k, w), Entry(Empty, d, v)];
    assert t[2].status == Empty;
    assert StopsAt(t, 0, k, 0);
    assert Locate(t, 0, k) == 0;
    assert t[..2] == t[..1] + [t[1]];
  }

  /** Advancing one slot with wrap-around, as `(bucket + 1) % tablesize`. */
  lemma ModNext(x: nat, size: nat)
    requires x < size
    ensures (x + 1) % size == if x + 1 == size then 0 else x + 1
  {
  }
}
