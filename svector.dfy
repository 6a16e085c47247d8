/**
 * The `svector` engine: a container of two parallel vectors, `keys` strictly ascending and
 * `values[i]` bound to `keys[i]`, searched by binary search and scanned in key order.
 */
module SvectorEngine {
  import opened ByteOrder
  import opened Search
  import opened KvModel

  /** `kv_container`: the durable aggregate holding the two parallel vectors. */
  class KvContainer {
    var keys: seq<Bytes>
    var values: seq<Bytes>

    /** The container invariant: equal lengths, keys strictly ascending. */
    ghost predicate Valid()
      reads this
    {
      |keys| == |values| && StrictlySorted(keys)
    }

    /** The map the container represents. */
    ghost function ToMap(): map<Bytes, Bytes>
      reads this
      requires Valid()
    {
      MapOf(keys, values)
    }

    /** `make_persistent<kv_container>()`: both vectors start empty. */
    constructor ()
      ensures Valid() && keys == [] && values == [] && ToMap() == map[]
    {
      keys, values := [], [];
    }
  }

  /** The durable pool's root slot: null until a container has been created in it. */
  class Pool {
    var root: KvContainer?

    ghost predicate Valid()
      reads this, root
    {
      root != null ==> root.Valid()
    }

    /** A pool opened for the first time has no root. */
    constructor ()
      ensures Valid() && root == null
    {
      root := null;
    }
  }

  class SVector {
    /** The working reference to the durable container, set by Recover. */
    var container: KvContainer?

    ghost predicate Valid()
      reads this, container
    {
      container != null && container.Valid()
    }

    /** Opening the engine on a pool recovers (or creates) its container. */
    constructor (pool: Pool)
      requires pool.Valid()
      modifies pool
      ensures Valid() && pool.Valid() && container == pool.root
      ensures old(pool.root) != null ==> container == old(pool.root)
      ensures old(pool.root) == null ==> fresh(container) && container.keys == [] && container.values == []
    {
      container := null;
      new;
      Recover(pool);
    }

    /**
     * Reattach to the container the root slot points to; if the slot is null, create an empty
     * container and store it in the slot, as one transaction.
     */
    method Recover(pool: Pool)
      requires pool.Valid()
      modifies this, pool
      ensures Valid() && pool.Valid() && container == pool.root
      ensures old(pool.root) != null ==> container == old(pool.root)
      ensures old(pool.root) != null ==>
        container.keys == old(pool.root.keys) && container.values == old(pool.root.values)
      ensures old(pool.root) == null ==> fresh(container) && container.keys == [] && container.values == []
    {
      if pool.root != null {
        container := pool.root;
      } else {
        var created := new KvContainer();
        pool.root, container := created, created;
      }
    }

    /** The exact-match binary search over `keys`: an index holding `target`, or -1. */
    method BinarySearch(target: Bytes) returns (index: int)
      requires Valid()
      ensures -1 <= index < |container.keys|
      ensures index >= 0 ==> container.keys[index] == target
      ensures index == -1 <==> target !in container.keys
    {
      var keys := container.keys;
      var l: int := 0;
      var r: int := |keys| - 1;
      while l <= r
        invariant 0 <= l <= r + 1 <= |keys|
        invariant forall i :: 0 <= i < l ==> Less(keys[i], target)
        invariant forall i :: r < i < |keys| ==> Less(target, keys[i])
      {
        var m := l + (r - l) / 2;
        if keys[m] == target {
          return m;
        }
        if Less(keys[m], target) {
          forall i | 0 <= i < m
            ensures Less(keys[i], target)
          {
            LessTransitive(keys[i], keys[m], target);
          }
          l := m + 1;
        } else {
          LessTotal(keys[m], target);
          forall i | m < i < |keys|
            ensures Less(target, keys[i])
          {
            LessTransitive(target, keys[m], keys[i]);
          }
          r := m - 1;
        }
      }
      forall i | 0 <= i < |keys|
        ensures keys[i] != target
      {
        LessIrreflexive(target);
      }
      return -1;
    }

    /** `count_all`: the number of stored pairs. */
    method CountAll() returns (cnt: nat)
      requires Valid()
      ensures cnt == |container.keys| == |container.values|
      ensures cnt == |container.ToMap()|
    {
      SortedDistinct(container.keys);
      MapOfSize(container.keys, container.values);
      cnt := |container.keys|;
    }

    /** `exists`: OK exactly when the key is stored, NOT_FOUND otherwise. */
    method Exists(key: Bytes) returns (st: Status)
      requires Valid()
      ensures st == OK || st == NotFound
      ensures st == OK <==> key in container.keys
      ensures st == OK <==> key in container.ToMap()
    {
      var index := BinarySearch(key);
      MapOfDomain(container.keys, container.values);
      st := if index == -1 then NotFound else OK;
    }

    /**
     * `get`: on a hit the callback is handed the value bound to the key (returned here as `seen`)
     * and the status is OK; on a miss the callback is not called and the status is NOT_FOUND.
     */
    method Get(key: Bytes) returns (st: Status, seen: Option<Bytes>)
      requires Valid()
      ensures st == OK || st == NotFound
      ensures st == OK <==> key in container.ToMap()
      ensures st == OK ==> seen == Some(container.ToMap()[key])
      ensures st == OK ==> exists i :: 0 <= i < |container.keys| && container.keys[i] == key && seen == Some(container.values[i])
      ensures st == NotFound ==> seen == None
    {
      var index := BinarySearch(key);
      MapOfDomain(container.keys, container.values);
      if index == -1 {
        return NotFound, None;
      }
      SortedDistinct(container.keys);
      MapOfAt(container.keys, container.values, index);
      return OK, Some(container.values[index]);
    }

    /**
     * `put`: overwrite the value in place when the key is at its lower bound, otherwise insert key
     * and value at that index of both vectors. Each branch is one transaction.
     */
    method Put(key: Bytes, value: Bytes) returns (st: Status)
      requires Valid()
      modifies container
      ensures Valid() && container == old(container)
      ensures st == OK
      ensures var i, ks, vs := LowerBound(old(container.keys), key), old(container.keys), old(container.values);
        if i < |ks| && ks[i] == key then
          container.keys == ks && container.values == vs[i := value]
        else
          container.keys == ks[..i] + [key] + ks[i..] && container.values == vs[..i] + [value] + vs[i..]
      ensures container.ToMap() == old(container.ToMap())[key := value]
      ensures |container.keys| == old(|container.keys|) + (if key in old(container.keys) then 0 else 1)
    {
      var keys, values := container.keys, container.values;
      var index := LowerBound(keys, key);
      SortedDistinct(keys);
      LowerBoundFinds(keys, key);
      if index < |keys| && keys[index] == key {
        container.values := values[index := value];
        MapOfOverwrite(keys, values, index, value);
      } else {
        container.keys, container.values := keys[..index] + [key] + keys[index..], values[..index] + [value] + values[index..];
        SortedInsert(keys, key);
        MapOfInsert(keys, values, index, key, value);
      }
      st := OK;
    }

    /**
     * `remove`: NOT_FOUND and no change for an absent key; otherwise erase its index from both
     * vectors in one transaction.
     */
    method Remove(key: Bytes) returns (st: Status)
      requires Valid()
      modifies container
      ensures Valid() && container == old(container)
      ensures st == OK || st == NotFound
      ensures st == OK <==> key in old(container.keys)
      ensures st == NotFound ==> container.keys == old(container.keys) && container.values == old(container.values)
      ensures st == OK ==> exists i :: (0 <= i < |old(container.keys)| && old(container.keys)[i] == key
        && container.keys == old(container.keys)[..i] + old(container.keys)[i + 1..]
        && container.values == old(container.values)[..i] + old(container.values)[i + 1..])
      ensures container.ToMap() == old(container.ToMap()) - {key}
      ensures key !in container.keys
      ensures |container.keys| == old(|container.keys|) - (if st == OK then 1 else 0)
    {
      var keys, values := container.keys, container.values;
      var index := BinarySearch(key);
      MapOfDomain(keys, values);
      if index == -1 {
        assert MapOf(keys, values) - {key} == MapOf(keys, values);
        return NotFound;
      }
      container.keys, container.values := keys[..index] + keys[index + 1..], values[..index] + values[index + 1..];
      SortedDistinct(keys);
      SortedErase(keys, index);
      MapOfErase(keys, values, index);
      MapOfDomain(container.keys, container.values);
      return OK;
    }

    /** `get_all`: every pair in ascending key order, until the callback returns non-zero. */
    method GetAll(callback: (Bytes, Bytes) -> int) returns (res: ScanResult)
      requires Valid()
      ensures res == Visit(Zip(container.keys, container.values), callback)
    {
      var keys, values := container.keys, container.values;
      ghost var es := Zip(keys, values);
      assert es[0..|es|] == es;
      var visited: seq<Entry> := [];
      var i := 0;
      while i < |keys|
        invariant 0 <= i <= |keys|
        invariant Visit(es[0..|es|], callback) == Prepend(visited, Visit(es[i..|es|], callback))
      {
        var ret := callback(keys[i], values[i]);
        ScanStep(es, i, |es|, visited, callback);
        assert es[i] == Entry(keys[i], values[i]);
        if ret != 0 {
          return ScanResult(StoppedByCallback, visited + [Entry(keys[i], values[i])]);
        }
        visited := visited + [Entry(keys[i], values[i])];
        i := i + 1;
      }
      return ScanResult(OK, visited);
    }

    /** `get_above`: the pairs with key > `key`, from the upper bound on, in ascending order. */
    method GetAbove(key: Bytes, callback: (Bytes, Bytes) -> int) returns (res: ScanResult)
      requires Valid()
      ensures res == Visit(Filter(Zip(container.keys, container.values), Above(key)), callback)
    {
      var keys, values := container.keys, container.values;
      ghost var es := Zip(keys, values);
      var it := UpperBound(keys, key);
      var index := it;
      ghost var lo := index;
      AboveIsSuffix(keys, values, key);
      ghost var candidates := es[lo..|es|];
      assert Filter(Zip(container.keys, container.values), Above(key)) == candidates;
      var visited: seq<Entry> := [];
      while it < |keys|
        invariant it == index
        invariant lo <= index <= |keys|
        invariant Visit(candidates, callback) == Prepend(visited, Visit(es[index..|es|], callback))
      {
        var ret := callback(keys[it], values[index]);
        ScanStep(es, index, |es|, visited, callback);
        assert es[index] == Entry(keys[it], values[index]);
        if ret != 0 {
          return ScanResult(StoppedByCallback, visited + [Entry(keys[it], values[index])]);
        }
        visited := visited + [Entry(keys[it], values[index])];
        it, index := it + 1, index + 1;
      }
      return ScanResult(OK, visited);
    }

    /** `get_equal_above`: the pairs with key >= `key`, from the lower bound on, in ascending order. */
    method GetEqualAbove(key: Bytes, callback: (Bytes, Bytes) -> int) returns (res: ScanResult)
      requires Valid()
      ensures res == Visit(Filter(Zip(container.keys, container.values), EqualAbove(key)), callback)
    {
      var keys, values := container.keys, container.values;
      ghost var es := Zip(keys, values);
      var it := LowerBound(keys, key);
      var index := it;
      ghost var lo := index;
      EqualAboveIsSuffix(keys, values, key);
      ghost var candidates := es[lo..|es|];
      assert Filter(Zip(container.keys, container.values), EqualAbove(key)) == candidates;
      var visited: seq<Entry> := [];
      while it < |keys|
        invariant it == index
        invariant lo <= index <= |keys|
        invariant Visit(candidates, callback) == Prepend(visited, Visit(es[index..|es|], callback))
      {
        var ret := callback(keys[it], values[index]);
        ScanStep(es, index, |es|, visited, callback);
        assert es[index] == Entry(keys[it], values[index]);
        if ret != 0 {
          return ScanResult(StoppedByCallback, visited + [Entry(keys[it], values[index])]);
        }
        visited := visited + [Entry(keys[it], values[index])];
        it, index := it + 1, index + 1;
      }
      return ScanResult(OK, visited);
    }

    /** `get_equal_below`: from index 0, the pairs with key <= `key`, stopping at the first greater key. */
    method GetEqualBelow(key: Bytes, callback: (Bytes, Bytes) -> int) returns (res: ScanResult)
      requires Valid()
      ensures res == Visit(Filter(Zip(container.keys, container.values), EqualBelow(key)), callback)
    {
      var keys, values := container.keys, container.values;
      ghost var es := Zip(keys, values);
      ghost var hi := UpperBound(keys, key);
      EqualBelowIsPrefix(keys, values, key);
      ghost var candidates := es[0..hi];
      assert Filter(Zip(container.keys, container.values), EqualBelow(key)) == candidates;
      var it, index := 0, 0;
      var visited: seq<Entry> := [];
      while it < |keys| && !Less(key, keys[it])
        invariant it == index
        invariant 0 <= index <= hi
        invariant Visit(candidates, callback) == Prepend(visited, Visit(es[index..hi], callback))
      {
        assert index < hi;
        var ret := callback(keys[it], values[index]);
        ScanStep(es, index, hi, visited, callback);
        assert es[index] == Entry(keys[it], values[index]);
        if ret != 0 {
          return ScanResult(StoppedByCallback, visited + [Entry(keys[it], values[index])]);
        }
        visited := visited + [Entry(keys[it], values[index])];
        it, index := it + 1, index + 1;
      }
      return ScanResult(OK, visited);
    }

    /** `get_below`: from index 0, the pairs with key < `key`, stopping at the first key not less. */
    method GetBelow(key: Bytes, callback: (Bytes, Bytes) -> int) returns (res: ScanResult)
      requires Valid()
      ensures res == Visit(Filter(Zip(container.keys, container.values), Below(key)), callback)
    {
      var keys, values := container.keys, container.values;
      ghost var es := Zip(keys, values);
      ghost var hi := LowerBound(keys, key);
      BelowIsPrefix(keys, values, key);
      ghost var candidates := es[0..hi];
      assert Filter(Zip(container.keys, container.values), Below(key)) == candidates;
      var it, index := 0, 0;
      var visited: seq<Entry> := [];
      while it < |keys| && Less(keys[it], key)
        invariant it == index
        invariant 0 <= index <= hi
        invariant Visit(candidates, callback) == Prepend(visited, Visit(es[index..hi], callback))
      {
        assert index < hi;
        var ret := callback(keys[it], values[index]);
        ScanStep(es, index, hi, visited, callback);
        assert es[index] == Entry(keys[it], values[index]);
        if ret != 0 {
          return ScanResult(StoppedByCallback, visited + [Entry(keys[it], values[index])]);
        }
        visited := visited + [Entry(keys[it], values[index])];
        it, index := it + 1, index + 1;
      }
      return ScanResult(OK, visited);
    }
  }
}
