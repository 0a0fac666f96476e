/**
  * The kernel semaphore table: System-V-like counting semaphores addressed by
  * an unsigned key, each with an owner process and a bounded list of user
  * processes, plus the counting down/up primitive.  The calling process is an
  * explicit `pid` argument.
  */
module Semaphores {
  import opened Errno
  import opened Slots

  /** An unsigned 32-bit integer, the type of semaphore keys. */
  newtype u32 = x: int | 0 <= x < 0x1_0000_0000

  /** Conversion of an `int` to `unsigned` (modulo 2^32). */
  function ToUnsigned(x: int): u32 { (x % 0x1_0000_0000) as u32 }

  datatype SemState = Inactive | Active

  /** One slot of the semaphore table. */
  datatype Ksem = Ksem(state: SemState, key: u32, owner: int, users: seq<int>, count: int)

  /** Marks a free entry of the user list. */
  const NO_USER: int := -1

  /** An active slot that holds `key`. */
  function HoldsKey(key: u32): Ksem -> bool
  {
    (k: Ksem) => k.state == Active && k.key == key
  }

  predicate IsInactive(k: Ksem) { k.state == Inactive }

  function Equals(v: int): int -> bool
  {
    (u: int) => u == v
  }

  /** A user list with every entry free. */
  function NoUsers(n: nat): (users: seq<int>)
    ensures |users| == n && forall i :: 0 <= i < n ==> users[i] == NO_USER
  {
    seq(n, _ => NO_USER)
  }

  /** The caller got the semaphore: it is the owner or a registered user. */
  predicate HasAccess(k: Ksem, pid: int)
  {
    k.owner == pid || pid in k.users
  }

  /**
    * The check every access makes, in the order the table makes it: an
    * inactive slot is reported as -ENOENT whoever asks, an active slot the
    * caller did not get as -EACCES.
    */
  function AccessCheck(k: Ksem, pid: int): (r: int)
    ensures r == -ENOENT <==> k.state == Inactive
    ensures r == -EACCES <==> k.state == Active && !HasAccess(k, pid)
    ensures r == 0 <==> k.state == Active && HasAccess(k, pid)
  {
    match k.state
    case Inactive => -ENOENT
    case Active => if HasAccess(k, pid) then 0 else -EACCES
  }

  /** What semaphore_create makes of the slot it takes: the counter is left as it was. */
  function Created(k: Ksem, key: u32, pid: int): Ksem
  {
    Ksem(Active, key, pid, NoUsers(|k.users|), k.count)
  }

  /** The slot after `pid` is stored in the first free user entry (which must exist). */
  function Registered(k: Ksem, pid: int): (r: Ksem)
    requires NO_USER in k.users
    ensures HasAccess(r, pid)
    ensures r.state == k.state && r.key == k.key && r.owner == k.owner && r.count == k.count
  {
    var f := FirstIndex(k.users, Equals(NO_USER));
    assert k.users[f := pid][f] == pid;
    k.(users := k.users[f := pid])
  }

  /** The slot after the first user entry equal to `pid` (which must exist) is freed. */
  function Dropped(k: Ksem, pid: int): Ksem
    requires pid in k.users
  {
    var f := FirstIndex(k.users, Equals(pid));
    k.(users := k.users[f := NO_USER])
  }

  /** Dropping frees exactly one registration of `pid`. */
  lemma DroppedRemovesOneRegistration(k: Ksem, pid: int)
    requires pid in k.users && pid != NO_USER
    ensures CountWhere(Dropped(k, pid).users, Equals(pid)) == CountWhere(k.users, Equals(pid)) - 1
    ensures CountWhere(Dropped(k, pid).users, Equals(NO_USER)) == CountWhere(k.users, Equals(NO_USER)) + 1
  {
    var f := FirstIndex(k.users, Equals(pid));
    CountWhereUpdate(k.users, f, NO_USER, Equals(pid));
    CountWhereUpdate(k.users, f, NO_USER, Equals(NO_USER));
  }

  /**
    * Once semaphore_create has put `key` into the first inactive slot of a
    * table where no active slot held it, the key lookup finds that slot.
    */
  lemma CreatedSlotIsFoundByKey(s: seq<Ksem>, key: u32, pid: int)
    requires FirstIndex(s, HoldsKey(key)) < 0 && FirstIndex(s, IsInactive) >= 0
    ensures var i := FirstIndex(s, IsInactive);
            FirstIndex(s[i := Created(s[i], key, pid)], HoldsKey(key)) == i
  {
    var i := FirstIndex(s, IsInactive);
    var t := s[i := Created(s[i], key, pid)];
    assert HoldsKey(key)(t[i]);
    forall j | 0 <= j < i ensures !HoldsKey(key)(t[j]) {
      assert t[j] == s[j];
    }
  }

  /**
    * The table of keyed semaphores.  `processMax` is the length of every
    * slot's user list.
    */
  class SemTable {
    const tab: array<Ksem>
    const processMax: nat
    /** The `initialized` flag of semtable_init; nothing ever sets it. */
    var initialized: bool

    ghost predicate Valid()
      reads tab
    {
      forall i :: 0 <= i < tab.Length ==> |tab[i].users| == processMax
    }

    /** A table of `semMax` inactive slots, initialised as semtable_init does at boot. */
    constructor (semMax: nat, processMax: nat, pid: int)
      ensures Valid() && fresh(tab) && tab.Length == semMax && this.processMax == processMax
      ensures !initialized
      ensures forall i :: 0 <= i < semMax ==>
                tab[i].state == Inactive && tab[i].owner == pid && tab[i].users == NoUsers(processMax)
    {
      tab := new Ksem[semMax](_ => Ksem(Inactive, 0, pid, NoUsers(processMax), 0));
      this.processMax := processMax;
      initialized := false;
    }

    /** init_proc_users: the caller becomes the owner and every user entry is freed. */
    method InitProcUsers(semid: nat, pid: int)
      requires Valid() && semid < tab.Length
      modifies tab
      ensures Valid()
      ensures tab[..] == old(tab[..])[semid := old(tab[semid]).(owner := pid, users := NoUsers(processMax))]
    {
      var users := tab[semid].users;
      var i := 0;
      while i < processMax
        invariant i <= processMax && |users| == processMax
        invariant forall j :: 0 <= j < i ==> users[j] == NO_USER
      {
        users := users[i := NO_USER];
        i := i + 1;
      }
      assert users == NoUsers(processMax);
      tab[semid] := tab[semid].(owner := pid, users := users);
    }

    /** key_check: the lowest active slot holding `key`, or -1. */
    method KeyCheck(key: u32) returns (semid: int)
      ensures semid == FirstIndex(tab[..], HoldsKey(key))
      ensures semid == -1 <==> forall i :: 0 <= i < tab.Length ==> !(tab[i].state == Active && tab[i].key == key)
    {
      semid := 0;
      while semid < tab.Length
        invariant 0 <= semid <= tab.Length
        invariant forall j :: 0 <= j < semid ==> !HoldsKey(key)(tab[j])
      {
        if tab[semid].state == Active && tab[semid].key == key {
          assert HoldsKey(key)(tab[..][semid]);
          return;
        }
        semid := semid + 1;
      }
      assert forall j :: 0 <= j < tab.Length ==> !HoldsKey(key)(tab[..][j]);
      semid := -1;
    }

    /** is_semaphore_get: whether `pid` owns slot `semid` or is one of its users. */
    method IsSemaphoreGet(semid: nat, pid: int) returns (got: bool)
      requires Valid() && semid < tab.Length
      ensures got == HasAccess(tab[semid], pid)
    {
      if tab[semid].owner == pid {
        return true;
      }
      var i := 0;
      while i < processMax
        invariant i <= processMax
        invariant forall j :: 0 <= j < i ==> tab[semid].users[j] != pid
      {
        if tab[semid].users[i] == pid {
          return true;
        }
        i := i + 1;
      }
      return false;
    }

    /** semaphore_drop: frees the first user entry equal to `pid`; 0 if there was one, -1 otherwise. */
    method Drop(semid: nat, pid: int) returns (r: int)
      requires Valid() && semid < tab.Length
      modifies tab
      ensures Valid()
      ensures r == 0 <==> pid in old(tab[semid].users)
      ensures r == -1 <==> pid !in old(tab[semid].users)
      ensures r == 0 ==> tab[..] == old(tab[..])[semid := Dropped(old(tab[semid]), pid)]
      ensures r == -1 ==> tab[..] == old(tab[..])
    {
      var i := 0;
      while i < processMax
        invariant i <= processMax
        invariant forall j :: 0 <= j < i ==> !Equals(pid)(tab[semid].users[j])
      {
        if tab[semid].users[i] == pid {
          assert FirstIndex(tab[semid].users, Equals(pid)) == i;
          tab[semid] := tab[semid].(users := tab[semid].users[i := NO_USER]);
          return 0;
        }
        i := i + 1;
      }
      return -1;
    }

    /** semaphore_set: after the access check, sets the counter to `count`. */
    method Set(semid: nat, count: int, pid: int) returns (r: int)
      requires Valid() && semid < tab.Length
      modifies tab
      ensures Valid()
      ensures r == AccessCheck(old(tab[semid]), pid)
      ensures r == 0 ==> tab[..] == old(tab[..])[semid := old(tab[semid]).(count := count)]
      ensures r != 0 ==> tab[..] == old(tab[..])
    {
      if tab[semid].state != Active {
        return -ENOENT;
      }
      var got := IsSemaphoreGet(semid, pid);
      if !got {
        return -EACCES;
      }
      tab[semid] := tab[semid].(count := count);
      return 0;
    }

    /**
      * semaphore_get: registers `pid` as a user of slot `semid`.  Owner and
      * existing users get `semid` back with nothing changed; otherwise `pid`
      * goes into the first free user entry, or -ENOBUFS when there is none.
      */
    method Get(semid: nat, pid: int) returns (r: int)
      requires Valid() && semid < tab.Length
      modifies tab
      ensures Valid()
      ensures old(tab[semid].state) == Inactive ==> r == -ENOENT && tab[..] == old(tab[..])
      ensures old(tab[semid].state) == Active && HasAccess(old(tab[semid]), pid) ==>
                r == semid && tab[..] == old(tab[..])
      ensures old(tab[semid].state) == Active && !HasAccess(old(tab[semid]), pid) ==>
                if NO_USER in old(tab[semid].users)
                then r == semid && tab[..] == old(tab[..])[semid := Registered(old(tab[semid]), pid)]
                else r == -ENOBUFS && tab[..] == old(tab[..])
      ensures r >= 0 ==> HasAccess(tab[semid], pid)
    {
      if tab[semid].state != Active {
        return -ENOENT;
      }
      var got := IsSemaphoreGet(semid, pid);
      if got {
        return semid;
      }
      var i := 0;
      while i < processMax
        invariant i <= processMax
        invariant forall j :: 0 <= j < i ==> !Equals(NO_USER)(tab[semid].users[j])
      {
        if tab[semid].users[i] == NO_USER {
          assert FirstIndex(tab[semid].users, Equals(NO_USER)) == i;
          tab[semid] := tab[semid].(users := tab[semid].users[i := pid]);
          return semid;
        }
        i := i + 1;
      }
      return -ENOBUFS;
    }

    /**
      * semaphore_create: -EEXIST when an active slot already holds `key`;
      * otherwise the first inactive slot becomes active with that key and the
      * caller as owner, or -ENOBUFS when every slot is active.
      */
    method Create(key: u32, pid: int) returns (r: int)
      requires Valid()
      modifies tab
      ensures Valid()
      ensures FirstIndex(old(tab[..]), HoldsKey(key)) >= 0 ==> r == -EEXIST && tab[..] == old(tab[..])
      ensures FirstIndex(old(tab[..]), HoldsKey(key)) < 0 ==>
                var free := FirstIndex(old(tab[..]), IsInactive);
                if free < 0 then r == -ENOBUFS && tab[..] == old(tab[..])
                else r == free && tab[..] == old(tab[..])[free := Created(old(tab[free]), key, pid)]
      ensures r >= 0 ==> r == FirstIndex(tab[..], HoldsKey(key))
    {
      var holder := KeyCheck(key);
      if holder != -1 {
        return -EEXIST;
      }
      var semid := 0;
      while semid < tab.Length
        invariant 0 <= semid <= tab.Length
        invariant forall j :: 0 <= j < semid ==> !IsInactive(tab[j])
      {
        if tab[semid].state == Inactive {
          assert FirstIndex(tab[..], IsInactive) == semid;
          CreatedSlotIsFoundByKey(tab[..], key, pid);
          InitProcUsers(semid, pid);
          tab[semid] := tab[semid].(state := Active, key := key);
          return semid;
        }
        semid := semid + 1;
      }
      assert FirstIndex(tab[..], IsInactive) == -1;
      return -ENOBUFS;
    }

    /**
      * semaphore_delete: the owner deactivates the slot whatever users remain;
      * a user is dropped, and because the result of the drop is checked the
      * wrong way round the call then returns -EBADMSG.
      */
    method Delete(semid: nat, pid: int) returns (r: int)
      requires Valid() && semid < tab.Length
      modifies tab
      ensures Valid()
      ensures AccessCheck(old(tab[semid]), pid) != 0 ==>
                r == AccessCheck(old(tab[semid]), pid) && tab[..] == old(tab[..])
      ensures AccessCheck(old(tab[semid]), pid) == 0 && old(tab[semid].owner) == pid ==>
                r == 0 && tab[..] == old(tab[..])[semid := old(tab[semid]).(state := Inactive)]
      ensures AccessCheck(old(tab[semid]), pid) == 0 && old(tab[semid].owner) != pid ==>
                r == -EBADMSG && tab[..] == old(tab[..])[semid := Dropped(old(tab[semid]), pid)]
    {
      if tab[semid].state != Active {
        return -ENOENT;
      }
      var got := IsSemaphoreGet(semid, pid);
      if !got {
        return -EACCES;
      }
      if tab[semid].owner == pid {
        tab[semid] := tab[semid].(state := Inactive);
        return 0;
      }
      var dropped := Drop(semid, pid);
      if dropped != 0 {
        return 0;
      }
      return -EBADMSG;
    }

    /** semaphore_getcount: the counter, after the access check. */
    method GetCount(semid: nat, pid: int) returns (r: int)
      requires Valid() && semid < tab.Length
      ensures AccessCheck(tab[semid], pid) != 0 ==> r == AccessCheck(tab[semid], pid)
      ensures AccessCheck(tab[semid], pid) == 0 ==> r == tab[semid].count
    {
      if tab[semid].state != Active {
        return -ENOENT;
      }
      var got := IsSemaphoreGet(semid, pid);
      if !got {
        return -EACCES;
      }
      return tab[semid].count;
    }

    /** semaphore_getid: the lowest active slot holding `key` (taken as unsigned), or -ENOENT. */
    method GetId(key: int) returns (r: int)
      ensures var k := FirstIndex(tab[..], HoldsKey(ToUnsigned(key)));
              r == if k >= 0 then k else -ENOENT
    {
      var semid := KeyCheck(ToUnsigned(key));
      if semid != -1 {
        return semid;
      }
      return -ENOENT;
    }

    /**
      * semtable_init: deactivates every slot and makes the caller the owner of
      * each, unless `initialized` is set -- which never happens, so every call
      * re-initialises the table.
      */
    method Init(pid: int)
      requires Valid()
      modifies tab
      ensures Valid()
      ensures old(initialized) ==> tab[..] == old(tab[..])
      ensures !old(initialized) ==>
                forall i :: 0 <= i < tab.Length ==>
                  tab[i] == old(tab[i]).(state := Inactive, owner := pid, users := NoUsers(processMax))
    {
      if initialized {
        return;
      }
      var semid := 0;
      while semid < tab.Length
        invariant 0 <= semid <= tab.Length
        invariant Valid()
        invariant forall i :: 0 <= i < semid ==>
                    tab[i] == old(tab[i]).(state := Inactive, owner := pid, users := NoUsers(processMax))
        invariant forall i :: semid <= i < tab.Length ==> tab[i] == old(tab[i])
      {
        tab[semid] := tab[semid].(state := Inactive);
        InitProcUsers(semid, pid);
        semid := semid + 1;
      }
    }
  }

  /** A counting semaphore of the kernel (struct semaphore). */
  class Semaphore {
    var count: int

    constructor (count: int)
      ensures this.count == count
    {
      this.count := count;
    }

    /**
      * semaphore_down: completes once the counter is positive and takes one
      * from it.  Sleeping on the condition variable is not modelled, so the
      * call requires a positive counter.
      */
    method Down()
      requires count > 0
      modifies this
      ensures count == old(count) - 1 && count >= 0
    {
      count := count - 1;
    }

    /** semaphore_up: adds one to the counter (and wakes every sleeper). */
    method Up()
      modifies this
      ensures count == old(count) + 1
    {
      count := count + 1;
    }
  }
}
