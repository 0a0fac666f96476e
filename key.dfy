/**
  * Thread-specific data: a pool of keys, each with a destructor, and a pool
  * of (key, thread, value) slots.  Addresses are integers; 0 is NULL.
  */
module ThreadKeys {
  import opened Errno
  import opened Slots

  const NULL: int := 0

  /** One slot of the key pool. */
  datatype ThreadKey = ThreadKey(res: Resource, destructor: int)

  /** One slot of the key-value pool. */
  datatype KeyValue = KeyValue(res: Resource, key: int, tid: int, value: int)

  predicate KeyFree(k: ThreadKey) { !k.res.used }

  predicate ValueFree(v: KeyValue) { !v.res.used }

  /**
    * What the value search accepts: a slot that is NOT in use and whose key
    * or whose thread matches.
    */
  function Matches(key: int, tid: int): KeyValue -> bool
  {
    (v: KeyValue) => !v.res.used && (v.key == key || v.tid == tid)
  }

  /**
    * The key-value slot at index `i` of `values` after it was taken from the
    * pool and filled in.
    */
  function Stored(v: KeyValue, key: int, tid: int, value: int): KeyValue
  {
    KeyValue(v.res.(used := true), key, tid, value)
  }

  /**
    * A value stored in a slot that had to be taken from the pool is never
    * found again: the slot is now in use and the search skips used slots, so
    * the search result stays -1.
    */
  lemma AllocatedValueIsNeverFound(vs: seq<KeyValue>, n: nat, key: int, tid: int, value: int)
    requires n <= |vs|
    requires FirstIndex(vs[..n], Matches(key, tid)) < 0
    requires FirstIndex(vs, ValueFree) >= 0
    ensures var a := FirstIndex(vs, ValueFree);
            FirstIndex(vs[a := Stored(vs[a], key, tid, value)][..n], Matches(key, tid)) < 0
  {
    var a := FirstIndex(vs, ValueFree);
    var ws := vs[a := Stored(vs[a], key, tid, value)];
    forall j | 0 <= j < n ensures !Matches(key, tid)(ws[..n][j]) {
      assert !Matches(key, tid)(vs[..n][j]);
      if j != a {
        assert ws[..n][j] == vs[..n][j];
      }
    }
  }

  /**
    * A value written into the slot the search found is read back: the slot
    * stays unused and now holds the key and thread, and every slot before it
    * is unchanged.
    */
  lemma FoundValueIsReadBack(vs: seq<KeyValue>, n: nat, key: int, tid: int, value: int)
    requires n <= |vs|
    requires FirstIndex(vs[..n], Matches(key, tid)) >= 0
    ensures var i := FirstIndex(vs[..n], Matches(key, tid));
            FirstIndex(vs[i := vs[i].(key := key, tid := tid, value := value)][..n], Matches(key, tid)) == i
  {
    var i := FirstIndex(vs[..n], Matches(key, tid));
    var ws := vs[i := vs[i].(key := key, tid := tid, value := value)];
    assert Matches(key, tid)(ws[..n][i]);
    forall j | 0 <= j < i ensures !Matches(key, tid)(ws[..n][j]) {
      assert ws[..n][j] == vs[..n][j];
    }
  }

  /**
    * The key store.  `keys` has THREAD_KEY_MAX slots and `values`
    * THREAD_KEY_VALUE_MAX; the value search scans the first THREAD_KEY_MAX
    * value slots only, which requires that there are at least as many value
    * slots as keys.
    */
  class KeyStore {
    const keys: array<ThreadKey>
    const values: array<KeyValue>

    predicate Valid()
    {
      keys.Length <= values.Length
    }

    constructor (keyMax: nat, valueMax: nat)
      requires keyMax <= valueMax
      ensures Valid() && fresh(keys) && fresh(values)
      ensures keys.Length == keyMax && values.Length == valueMax
      ensures forall i :: 0 <= i < keyMax ==> KeyFree(keys[i])
      ensures forall i :: 0 <= i < valueMax ==> ValueFree(values[i])
    {
      keys := new ThreadKey[keyMax](_ => ThreadKey(Initializer, NULL));
      values := new KeyValue[valueMax](_ => KeyValue(Initializer, 0, 0, NULL));
    }

    /**
      * thread_key_search_value: the first of the first THREAD_KEY_MAX value
      * slots that is unused and matches `key` or `tid`, or -1.
      */
    method SearchValue(tid: int, key: int) returns (i: int)
      requires Valid()
      ensures i == FirstIndex(values[..keys.Length], Matches(key, tid))
      ensures 0 <= i ==> !values[i].res.used && (values[i].key == key || values[i].tid == tid)
    {
      i := 0;
      while i < keys.Length
        invariant 0 <= i <= keys.Length
        invariant forall j :: 0 <= j < i ==> !Matches(key, tid)(values[..keys.Length][j])
      {
        if values[i].res.used {
          i := i + 1;
          continue;
        }
        if values[i].key != key && values[i].tid != tid {
          i := i + 1;
          continue;
        }
        assert Matches(key, tid)(values[..keys.Length][i]);
        return;
      }
      i := -1;
    }

    /** resource_alloc on the key pool: the lowest unused key becomes used, or -1. */
    method AllocKey() returns (id: int)
      modifies keys
      ensures id == FirstIndex(old(keys[..]), KeyFree)
      ensures id < 0 ==> keys[..] == old(keys[..])
      ensures id >= 0 ==> keys[..] == old(keys[..])[id := old(keys[id]).(res := old(keys[id]).res.(used := true))]
    {
      id := 0;
      while id < keys.Length
        invariant 0 <= id <= keys.Length
        invariant forall j :: 0 <= j < id ==> !KeyFree(keys[j])
      {
        if !keys[id].res.used {
          assert FirstIndex(keys[..], KeyFree) == id;
          keys[id] := keys[id].(res := keys[id].res.(used := true));
          return;
        }
        id := id + 1;
      }
      assert FirstIndex(keys[..], KeyFree) == -1;
      id := -1;
    }

    /** resource_alloc on the key-value pool: the lowest unused slot becomes used, or -1. */
    method AllocValue() returns (id: int)
      modifies values
      ensures id == FirstIndex(old(values[..]), ValueFree)
      ensures id < 0 ==> values[..] == old(values[..])
      ensures id >= 0 ==>
                values[..] == old(values[..])[id := old(values[id]).(res := old(values[id]).res.(used := true))]
    {
      id := 0;
      while id < values.Length
        invariant 0 <= id <= values.Length
        invariant forall j :: 0 <= j < id ==> !ValueFree(values[j])
      {
        if !values[id].res.used {
          assert FirstIndex(values[..], ValueFree) == id;
          values[id] := values[id].(res := values[id].res.(used := true));
          return;
        }
        id := id + 1;
      }
      assert FirstIndex(values[..], ValueFree) == -1;
      id := -1;
    }

    /**
      * thread_key_create: -EINVAL when the out-parameter is NULL, -EAGAIN when
      * every key is used; otherwise the lowest unused key is taken, written
      * through the out-parameter (`written`) and given `destructor`.
      */
    method KeyCreate(keyPtrIsNull: bool, destructor: int) returns (r: int, written: Option<int>)
      modifies keys
      ensures keyPtrIsNull ==> r == -EINVAL && written == None && keys[..] == old(keys[..])
      ensures !keyPtrIsNull && FirstIndex(old(keys[..]), KeyFree) < 0 ==>
                r == -EAGAIN && written == None && keys[..] == old(keys[..])
      ensures !keyPtrIsNull && FirstIndex(old(keys[..]), KeyFree) >= 0 ==>
                var id := FirstIndex(old(keys[..]), KeyFree);
                r == 0 && written == Some(id) &&
                keys[..] == old(keys[..])[id := ThreadKey(old(keys[id]).res.(used := true), destructor)]
      ensures r == 0 ==> written.Some? && 0 <= written.value < keys.Length && keys[written.value].res.used
    {
      written := None;
      if keyPtrIsNull {
        return -EINVAL, None;
      }
      var keyid := AllocKey();
      if keyid < 0 {
        return -EAGAIN, None;
      }
      written := Some(keyid);
      keys[keyid] := keys[keyid].(destructor := destructor);
      r := 0;
    }

    /**
      * thread_key_delete: -EINVAL for a key outside [0, THREAD_KEY_MAX),
      * -EBADF for an unused key; otherwise the key is freed.  Values stored
      * under the key stay where they are.
      */
    method KeyDelete(key: int) returns (r: int)
      modifies keys
      ensures !(0 <= key < keys.Length) ==> r == -EINVAL && keys[..] == old(keys[..])
      ensures 0 <= key < keys.Length && !old(keys[key].res.used) ==> r == -EBADF && keys[..] == old(keys[..])
      ensures 0 <= key < keys.Length && old(keys[key].res.used) ==>
                r == 0 && keys[..] == old(keys[..])[key := old(keys[key]).(res := old(keys[key]).res.(used := false))]
    {
      if !(0 <= key < keys.Length) {
        return -EINVAL;
      }
      if !keys[key].res.used {
        return -EBADF;
      }
      keys[key] := keys[key].(res := keys[key].res.(used := false));
      return 0;
    }

    /**
      * thread_getspecific: -1 for a negative thread id, a key out of range or
      * unused, or a failed search; otherwise 0, with the found slot's value
      * written through the out-parameter (`value`).
      */
    method GetSpecific(tid: int, key: int) returns (r: int, value: Option<int>)
      requires Valid()
      ensures r == 0 || r == -1
      ensures r == 0 <==> value.Some?
      ensures r == 0 <==> tid >= 0 && 0 <= key < keys.Length && keys[key].res.used
                          && FirstIndex(values[..keys.Length], Matches(key, tid)) >= 0
      ensures r == 0 ==> value.value == values[FirstIndex(values[..keys.Length], Matches(key, tid))].value
    {
      value := None;
      if tid < 0 {
        return -1, None;
      }
      if !(0 <= key < keys.Length) {
        return -1, None;
      }
      if !keys[key].res.used {
        return -1, None;
      }
      var valueid := SearchValue(tid, key);
      if valueid < 0 {
        return -1, None;
      }
      value := Some(values[valueid].value);
      r := 0;
    }

    /**
      * thread_setspecific: -EINVAL for a negative thread id or a key out of
      * range, -EBADF for an unused key.  A non-NULL value is written with the
      * key and thread into the slot the search finds, else into a slot taken
      * from the pool (-EAGAIN when none is left).  A NULL value frees the
      * found slot, if any.
      */
    method SetSpecific(tid: int, key: int, value: int) returns (r: int)
      requires Valid()
      modifies values
      ensures Valid()
      ensures tid < 0 || !(0 <= key < keys.Length) ==> r == -EINVAL && values[..] == old(values[..])
      ensures tid >= 0 && 0 <= key < keys.Length && !keys[key].res.used ==>
                r == -EBADF && values[..] == old(values[..])
      ensures tid >= 0 && 0 <= key < keys.Length && keys[key].res.used ==>
                var found := FirstIndex(old(values[..keys.Length]), Matches(key, tid));
                var free := FirstIndex(old(values[..]), ValueFree);
                if value != NULL then
                  if found >= 0 then
                    r == 0 && values[..] == old(values[..])[found := old(values[found]).(key := key, tid := tid, value := value)]
                  else if free >= 0 then
                    r == 0 && values[..] == old(values[..])[free := Stored(old(values[free]), key, tid, value)]
                  else
                    r == -EAGAIN && values[..] == old(values[..])
                else
                  r == 0 &&
                  values[..] == if found >= 0
                                then old(values[..])[found := old(values[found]).(res := old(values[found]).res.(used := false))]
                                else old(values[..])
    {
      if tid < 0 {
        return -EINVAL;
      }
      if !(0 <= key < keys.Length) {
        return -EINVAL;
      }
      if !keys[key].res.used {
        return -EBADF;
      }
      var valueid := SearchValue(tid, key);
      if value != NULL {
        if valueid < 0 {
          valueid := AllocValue();
          if valueid < 0 {
            return -EAGAIN;
          }
        }
        values[valueid] := values[valueid].(key := key, tid := tid, value := value);
      } else if valueid >= 0 {
        values[valueid] := values[valueid].(res := values[valueid].res.(used := false));
      }
      return 0;
    }
  }
}
