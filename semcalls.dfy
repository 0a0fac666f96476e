/**
  * The two semaphore kernel calls: semget (create-or-look-up by key) and
  * semctl (get the counter, set it, or delete), both acting on the
  * semaphore table for the calling process `pid`.
  */
module SemCalls {
  import opened Errno
  import opened Slots
  import opened Semaphores

  /** Command numbers of semctl. */
  const SEMAPHORE_GETVALUE: int := 0
  const SEMAPHORE_SETVALUE: int := 1
  const SEMAPHORE_DELETE: int := 2

  /**
    * kcall_semget: creates a semaphore for `key`.  When the key is taken, the
    * id of the slot holding it is returned and the caller is not registered as
    * a user; when it is new, the fresh slot's id is returned and the caller is
    * its owner (the follow-up get adds no user entry).
    */
  method Semget(t: SemTable, key: u32, pid: int) returns (r: int)
    requires t.Valid()
    modifies t.tab
    ensures t.Valid()
    ensures FirstIndex(old(t.tab[..]), HoldsKey(key)) >= 0 ==>
              r == FirstIndex(old(t.tab[..]), HoldsKey(key)) && t.tab[..] == old(t.tab[..])
    ensures FirstIndex(old(t.tab[..]), HoldsKey(key)) < 0 ==>
              var free := FirstIndex(old(t.tab[..]), IsInactive);
              if free < 0 then r == -ENOBUFS && t.tab[..] == old(t.tab[..])
              else r == free && t.tab[..] == old(t.tab[..])[free := Created(old(t.tab[free]), key, pid)]
    ensures r >= 0 ==> r == FirstIndex(t.tab[..], HoldsKey(key))
    ensures r < 0 ==> r == -ENOBUFS
  {
    r := t.Create(key, pid);
    if r == -EEXIST {
      r := t.GetId(key as int);
      return;
    }
    if r == -ENOBUFS {
      return -ENOBUFS;
    }
    var semid := r;
    r := t.Get(semid, pid);
    if r >= 0 {
      return;
    }
    return -ENOENT;
  }

  /** Two semget calls for the same key, by any two processes, return the same id. */
  method SemgetTwice(t: SemTable, key: u32, pid1: int, pid2: int) returns (id1: int, id2: int)
    requires t.Valid()
    modifies t.tab
    ensures id1 >= 0 ==> id2 == id1
    ensures id1 < 0 ==> id2 < 0
  {
    id1 := Semget(t, key, pid1);
    id2 := Semget(t, key, pid2);
  }

  /**
    * kcall_semctl: command 0 is semaphore_getcount, 1 semaphore_set with
    * `val`, 2 semaphore_delete; any other command is -EINVAL with nothing
    * changed.
    */
  method Semctl(t: SemTable, id: int, cmd: int, val: int, pid: int) returns (r: int)
    requires t.Valid()
    requires cmd == SEMAPHORE_GETVALUE || cmd == SEMAPHORE_SETVALUE || cmd == SEMAPHORE_DELETE ==>
               0 <= id < t.tab.Length
    modifies t.tab
    ensures t.Valid()
    ensures cmd == SEMAPHORE_GETVALUE ==>
              t.tab[..] == old(t.tab[..]) &&
              r == (if AccessCheck(t.tab[id], pid) != 0 then AccessCheck(t.tab[id], pid) else t.tab[id].count)
    ensures cmd == SEMAPHORE_SETVALUE ==>
              r == AccessCheck(old(t.tab[id]), pid) &&
              t.tab[..] == (if r == 0 then old(t.tab[..])[id := old(t.tab[id]).(count := val)] else old(t.tab[..]))
    ensures cmd == SEMAPHORE_DELETE ==>
              var k := old(t.tab[id]);
              if AccessCheck(k, pid) != 0 then r == AccessCheck(k, pid) && t.tab[..] == old(t.tab[..])
              else if k.owner == pid then r == 0 && t.tab[..] == old(t.tab[..])[id := k.(state := Inactive)]
              else r == -EBADMSG && t.tab[..] == old(t.tab[..])[id := Dropped(k, pid)]
    ensures cmd != SEMAPHORE_GETVALUE && cmd != SEMAPHORE_SETVALUE && cmd != SEMAPHORE_DELETE ==>
              r == -EINVAL && t.tab[..] == old(t.tab[..])
  {
    r := -EINVAL;
    if cmd == SEMAPHORE_GETVALUE {
      r := t.GetCount(id, pid);
    } else if cmd == SEMAPHORE_SETVALUE {
      r := t.Set(id, val, pid);
    } else if cmd == SEMAPHORE_DELETE {
      r := t.Delete(id, pid);
    }
  }
}
