/**
  * The table of synchronization points of the NoC layer.  A synchronization
  * point is identified by its direction, its master node (the first node of
  * the list), the 64-bit footprint of its node list and its type; identical
  * requests share one slot and count references.  The hardware primitives
  * (sync_create, sync_open, sync_unlink, sync_close, sync_wait, sync_signal)
  * become parameters that hold the value the primitive returns.
  */
module Sync {
  import opened Errno
  import opened Slots

  /** Node numbers a footprint can hold: shifting a 64-bit one by them is defined. */
  predicate NodesInRange(nodes: seq<int>)
  {
    forall j :: 0 <= j < |nodes| ==> 0 <= nodes[j] < 64
  }

  /**
    * A 64-bit word, as its 64 bits: bit k of the word is element k.  Two
    * words are equal exactly when all their bits are.
    */
  type Word64 = w: seq<bool> | |w| == 64 witness Clear(64)

  /** `n` bits, all clear. */
  function Clear(n: nat): (w: seq<bool>)
    ensures |w| == n && forall i :: 0 <= i < n ==> !w[i]
  {
    if n == 0 then [] else Clear(n - 1) + [false]
  }

  /** The word 0. */
  const Zero: Word64 := Clear(64)

  /** `w | (1 << k)`: the word with bit `k` set as well. */
  function SetBit(w: Word64, k: int): (r: Word64)
    requires 0 <= k < 64
    ensures r[k] && forall i :: 0 <= i < 64 && i != k ==> r[i] == w[i]
  {
    w[k := true]
  }

  /** The footprint of a node list: the OR of `1 << node` over the list. */
  function Footprint(nodes: seq<int>): Word64
    requires NodesInRange(nodes)
  {
    if nodes == [] then Zero
    else SetBit(Footprint(nodes[..|nodes| - 1]), nodes[|nodes| - 1])
  }

  /** The footprint loop of do_sync_create and do_sync_open. */
  method ComputeFootprint(nodes: seq<int>) returns (footprint: Word64)
    requires NodesInRange(nodes)
    ensures footprint == Footprint(nodes)
  {
    footprint := Zero;
    var j := 0;
    while j < |nodes|
      invariant 0 <= j <= |nodes|
      invariant footprint == Footprint(nodes[..j])
    {
      assert nodes[..j + 1][..j] == nodes[..j];
      footprint := SetBit(footprint, nodes[j]);
      j := j + 1;
    }
    assert nodes[..j] == nodes;
  }

  /** Bit `k` of the footprint is set exactly when node `k` is in the list. */
  lemma {:induction false} FootprintHasBit(nodes: seq<int>, k: int)
    requires NodesInRange(nodes) && 0 <= k < 64
    ensures Footprint(nodes)[k] <==> k in nodes
  {
    if nodes != [] {
      var init := nodes[..|nodes| - 1];
      FootprintHasBit(init, k);
      assert nodes == init + [nodes[|nodes| - 1]];
    }
  }

  /**
    * Two node lists with the same nodes, in whatever order and with whatever
    * repetitions, have the same footprint.
    */
  lemma FootprintIgnoresOrderAndRepeats(a: seq<int>, b: seq<int>)
    requires NodesInRange(a) && NodesInRange(b)
    requires forall x :: x in a <==> x in b
    ensures Footprint(a) == Footprint(b)
  {
    forall k | 0 <= k < 64 ensures Footprint(a)[k] == Footprint(b)[k] {
      FootprintHasBit(a, k);
      FootprintHasBit(b, k);
    }
  }

  /** Bit `i` of a 64-bit machine word. */
  predicate BitOf(x: bv64, i: bv8)
    requires i < 64
  {
    (x >> i) & 1 == 1
  }

  /** A machine word and a Word64 agree bit by bit. */
  ghost predicate Represents(x: bv64, w: Word64)
  {
    forall i: bv8 :: i < 64 ==> BitOf(x, i) == w[i as int]
  }

  /** A bit of an OR is set iff it is set in either operand. */
  lemma OrBit(x: bv64, y: bv64, i: bv8)
    requires i < 64
    ensures BitOf(x | y, i) == (BitOf(x, i) || BitOf(y, i))
  {
  }

  /** `1 << k` has bit `k` set and no other. */
  lemma ShiftBit(k: bv8, i: bv8)
    requires k < 64 && i < 64
    ensures BitOf(1 << k, i) == (i == k)
  {
  }

  /** Below 64, two bit positions are equal as words iff they are equal as numbers. */
  lemma SameIndex(k: bv8, i: bv8)
    requires k < 64 && i < 64
    ensures (i == k) == (i as int == k as int)
  {
  }

  /** One bit of `x | (1 << k)` against the same bit of SetBit. */
  lemma OrShiftBitAt(x: bv64, w: Word64, k: bv8, i: bv8)
    requires k < 64 && i < 64 && BitOf(x, i) == w[i as int]
    ensures BitOf(x | (1 << k), i) == SetBit(w, k as int)[i as int]
  {
    OrBit(x, 1 << k, i);
    ShiftBit(k, i);
    SameIndex(k, i);
  }

  /** `footprint |= (1ULL << k)` on the machine word is SetBit on its bits. */
  lemma OrShiftIsSetBit(x: bv64, w: Word64, k: bv8)
    requires k < 64 && Represents(x, w)
    ensures Represents(x | (1 << k), SetBit(w, k as int))
  {
    var y, v := x | (1 << k), SetBit(w, k as int);
    forall i: bv8 | i < 64
      ensures BitOf(y, i) == v[i as int]
    {
      OrShiftBitAt(x, w, k, i);
    }
  }

  /** The word 0 has no bit set, like Zero. */
  lemma ZeroRepresents()
    ensures Represents(0, Zero)
  {
    forall i: bv8 | i < 64 ensures BitOf(0, i) == Zero[i as int] {
      assert !BitOf(0, i);
    }
  }

  /** A bit position below 64 survives the trip to a word and back. */
  lemma IndexRoundTrip(k: int)
    requires 0 <= k < 64
    ensures (k as bv8) as int == k
  {
  }

  /** The footprint as the machine word do_sync_create computes: 0ULL, then `|= 1ULL << node`. */
  function FootprintWord(nodes: seq<int>): bv64
    requires NodesInRange(nodes)
  {
    if nodes == [] then 0
    else FootprintWord(nodes[..|nodes| - 1]) | (1 << nodes[|nodes| - 1] as bv8)
  }

  /** The machine-word footprint has exactly the bits of Footprint. */
  lemma {:induction false} FootprintWordRepresents(nodes: seq<int>)
    requires NodesInRange(nodes)
    ensures Represents(FootprintWord(nodes), Footprint(nodes))
  {
    if nodes == [] {
      ZeroRepresents();
    } else {
      var init := nodes[..|nodes| - 1];
      FootprintWordRepresents(init);
      var k := nodes[|nodes| - 1];
      IndexRoundTrip(k);
      OrShiftIsSetBit(FootprintWord(init), Footprint(init), k as bv8);
    }
  }

  /** Input points are created (readable); output points are opened (writable). */
  datatype Direction = Input | Output

  /** One slot of the synchronization table. */
  datatype SyncPoint = SyncPoint(res: Resource, refcount: int, fd: int, typ: int, masternum: int, footprint: Word64)

  predicate SyncFree(p: SyncPoint) { !p.res.used }

  predicate Faces(r: Resource, dir: Direction)
  {
    match dir
    case Input => r.readable
    case Output => r.writable
  }

  /** The deduplication test: a used point of the same direction, master, footprint and type. */
  function SameRequest(dir: Direction, master: int, footprint: Word64, typ: int): SyncPoint -> bool
  {
    (p: SyncPoint) => p.res.used && Faces(p.res, dir) && p.masternum == master
                      && p.footprint == footprint && p.typ == typ
  }

  /** A slot freshly taken from the pool and initialised for a request. */
  function Initialised(p: SyncPoint, dir: Direction, fd: int, typ: int, master: int, footprint: Word64): (q: SyncPoint)
    ensures q.res.used && !q.res.busy && q.refcount == 1
    ensures dir == Input ==> q.res.readable && !q.res.writable
    ensures dir == Output ==> q.res.writable && !q.res.readable
  {
    var r := p.res.(used := true);
    var r' := match dir case Input => SetRdonly(r) case Output => SetWronly(r);
    SyncPoint(r'.(busy := false), 1, fd, typ, master, footprint)
  }

  /** A slot after its last reference was released and the hardware released it. */
  function Freed(p: SyncPoint): SyncPoint
  {
    SyncPoint(p.res.(used := false), 0, -1, p.typ, -1, Zero)
  }

  /**
    * A point just initialised for a request that matched no slot is the slot
    * the next identical request finds.
    */
  lemma InitialisedIsShared(s: seq<SyncPoint>, i: nat, dir: Direction, fd: int, typ: int, master: int, footprint: Word64)
    requires i < |s| && FirstIndex(s, SameRequest(dir, master, footprint, typ)) < 0
    requires forall j :: 0 <= j < i ==> !SyncFree(s[j])
    ensures FirstIndex(s[i := Initialised(s[i], dir, fd, typ, master, footprint)], SameRequest(dir, master, footprint, typ)) == i
  {
    var t := s[i := Initialised(s[i], dir, fd, typ, master, footprint)];
    assert SameRequest(dir, master, footprint, typ)(t[i]);
    forall j | 0 <= j < i ensures !SameRequest(dir, master, footprint, typ)(t[j]) {
      assert t[j] == s[j];
    }
  }

  class SyncTable {
    const tab: array<SyncPoint>

    /** Every used slot holds at least one reference. */
    ghost predicate Valid()
      reads tab
    {
      forall i :: 0 <= i < tab.Length && tab[i].res.used ==> tab[i].refcount >= 1
    }

    constructor (n: nat)
      ensures Valid() && fresh(tab) && tab.Length == n
      ensures forall i :: 0 <= i < n ==> SyncFree(tab[i])
    {
      tab := new SyncPoint[n](_ => SyncPoint(Initializer, 0, -1, 0, -1, Zero));
    }

    /** do_sync_is_valid: the id names a slot of the table. */
    predicate IsValid(syncid: int)
    {
      0 <= syncid < tab.Length
    }

    /** The search loop of do_sync_create / do_sync_open, without the increment. */
    method FindSame(dir: Direction, master: int, footprint: Word64, typ: int) returns (i: int)
      ensures i == FirstIndex(tab[..], SameRequest(dir, master, footprint, typ))
      ensures 0 <= i ==> tab[i].res.used && Faces(tab[i].res, dir) && tab[i].masternum == master
                         && tab[i].footprint == footprint && tab[i].typ == typ
    {
      i := 0;
      while i < tab.Length
        invariant 0 <= i <= tab.Length
        invariant forall j :: 0 <= j < i ==> !SameRequest(dir, master, footprint, typ)(tab[..][j])
      {
        if tab[i].res.used && Faces(tab[i].res, dir) && tab[i].masternum == master
           && tab[i].footprint == footprint && tab[i].typ == typ {
          assert SameRequest(dir, master, footprint, typ)(tab[..][i]);
          return;
        }
        i := i + 1;
      }
      i := -1;
    }

    /** resource_alloc on the pool: the lowest unused slot becomes used, or -1. */
    method AllocSlot() returns (id: int)
      modifies tab
      ensures id == FirstIndex(old(tab[..]), SyncFree)
      ensures id < 0 ==> tab[..] == old(tab[..])
      ensures id >= 0 ==> tab[..] == old(tab[..])[id := old(tab[id]).(res := old(tab[id]).res.(used := true))]
    {
      id := 0;
      while id < tab.Length
        invariant 0 <= id <= tab.Length
        invariant forall j :: 0 <= j < id ==> !SyncFree(tab[j])
      {
        if !tab[id].res.used {
          assert FirstIndex(tab[..], SyncFree) == id;
          tab[id] := tab[id].(res := tab[id].res.(used := true));
          return;
        }
        id := id + 1;
      }
      assert FirstIndex(tab[..], SyncFree) == -1;
      id := -1;
    }

    /**
      * _do_sync_create (dir = Input) and _do_sync_open (dir = Output): takes
      * the lowest free slot (-EAGAIN when there is none), then asks the
      * hardware (`hwFd` is what sync_create or sync_open returns); on a
      * hardware error the slot is given back and the error returned,
      * otherwise the slot is initialised with one reference.
      */
    method AttachNew(dir: Direction, nodes: seq<int>, typ: int, footprint: Word64, hwFd: int) returns (syncid: int)
      requires |nodes| >= 1 && Valid()
      modifies tab
      ensures Valid()
      ensures var free := FirstIndex(old(tab[..]), SyncFree);
              if free < 0 then syncid == -EAGAIN && tab[..] == old(tab[..])
              else if hwFd < 0 then syncid == hwFd && tab[..] == old(tab[..])
              else syncid == free
                   && tab[..] == old(tab[..])[free := Initialised(old(tab[free]), dir, hwFd, typ, nodes[0], footprint)]
    {
      syncid := AllocSlot();
      if syncid < 0 {
        return -EAGAIN;
      }
      if hwFd < 0 {
        tab[syncid] := tab[syncid].(res := tab[syncid].res.(used := false));
        assert tab[..] == old(tab[..]);
        return hwFd;
      }
      var r := tab[syncid].res;
      r := match dir case Input => SetRdonly(r) case Output => SetWronly(r);
      tab[syncid] := SyncPoint(r.(busy := false), 1, hwFd, typ, nodes[0], footprint);
    }

    /**
      * do_sync_create (dir = Input) and do_sync_open (dir = Output): a
      * request identical to a used slot of the same direction adds a
      * reference to it and returns its id; any other request gets a new slot.
      */
    method Attach(dir: Direction, nodes: seq<int>, typ: int, hwFd: int) returns (syncid: int)
      requires |nodes| >= 1 && NodesInRange(nodes) && Valid()
      modifies tab
      ensures Valid()
      ensures var same := FirstIndex(old(tab[..]), SameRequest(dir, nodes[0], Footprint(nodes), typ));
              var free := FirstIndex(old(tab[..]), SyncFree);
              if same >= 0 then
                syncid == same && tab[..] == old(tab[..])[same := old(tab[same]).(refcount := old(tab[same]).refcount + 1)]
              else if free < 0 then syncid == -EAGAIN && tab[..] == old(tab[..])
              else if hwFd < 0 then syncid == hwFd && tab[..] == old(tab[..])
              else syncid == free
                   && tab[..] == old(tab[..])[free := Initialised(old(tab[free]), dir, hwFd, typ, nodes[0], Footprint(nodes))]
      ensures syncid >= 0 ==> syncid == FirstIndex(tab[..], SameRequest(dir, nodes[0], Footprint(nodes), typ))
    {
      var footprint := ComputeFootprint(nodes);
      var same := FindSame(dir, nodes[0], footprint, typ);
      if same >= 0 {
        tab[same] := tab[same].(refcount := tab[same].refcount + 1);
        assert SameRequest(dir, nodes[0], footprint, typ)(tab[..][same]);
        assert forall j :: 0 <= j < same ==> tab[..][j] == old(tab[..])[j];
        return same;
      }
      ghost var free := FirstIndex(tab[..], SyncFree);
      if free >= 0 {
        InitialisedIsShared(tab[..], free, dir, hwFd, typ, nodes[0], footprint);
      }
      syncid := AttachNew(dir, nodes, typ, footprint, hwFd);
    }

    /** do_sync_create. */
    method Create(nodes: seq<int>, typ: int, hwFd: int) returns (syncid: int)
      requires |nodes| >= 1 && NodesInRange(nodes) && Valid()
      modifies tab
      ensures Valid()
      ensures var same := FirstIndex(old(tab[..]), SameRequest(Input, nodes[0], Footprint(nodes), typ));
              var free := FirstIndex(old(tab[..]), SyncFree);
              if same >= 0 then
                syncid == same && tab[..] == old(tab[..])[same := old(tab[same]).(refcount := old(tab[same]).refcount + 1)]
              else if free < 0 then syncid == -EAGAIN && tab[..] == old(tab[..])
              else if hwFd < 0 then syncid == hwFd && tab[..] == old(tab[..])
              else syncid == free
                   && tab[..] == old(tab[..])[free := Initialised(old(tab[free]), Input, hwFd, typ, nodes[0], Footprint(nodes))]
      ensures syncid >= 0 ==> syncid == FirstIndex(tab[..], SameRequest(Input, nodes[0], Footprint(nodes), typ))
    {
      syncid := Attach(Input, nodes, typ, hwFd);
    }

    /** do_sync_open. */
    method Open(nodes: seq<int>, typ: int, hwFd: int) returns (syncid: int)
      requires |nodes| >= 1 && NodesInRange(nodes) && Valid()
      modifies tab
      ensures Valid()
      ensures var same := FirstIndex(old(tab[..]), SameRequest(Output, nodes[0], Footprint(nodes), typ));
              var free := FirstIndex(old(tab[..]), SyncFree);
              if same >= 0 then
                syncid == same && tab[..] == old(tab[..])[same := old(tab[same]).(refcount := old(tab[same]).refcount + 1)]
              else if free < 0 then syncid == -EAGAIN && tab[..] == old(tab[..])
              else if hwFd < 0 then syncid == hwFd && tab[..] == old(tab[..])
              else syncid == free
                   && tab[..] == old(tab[..])[free := Initialised(old(tab[free]), Output, hwFd, typ, nodes[0], Footprint(nodes))]
      ensures syncid >= 0 ==> syncid == FirstIndex(tab[..], SameRequest(Output, nodes[0], Footprint(nodes), typ))
    {
      syncid := Attach(Output, nodes, typ, hwFd);
    }

    /**
      * _do_sync_release: drops one reference.  At zero references the
      * hardware release runs (`releaseRet` is what it returns); on success
      * the slot is reset and freed, on failure its error is returned and the
      * slot stays used with no references, which breaks `Valid`.
      */
    method Release(syncid: nat, releaseRet: int) returns (r: int)
      requires syncid < tab.Length
      modifies tab
      ensures var p := old(tab[syncid]);
              if p.refcount != 1 then
                r == 0 && tab[..] == old(tab[..])[syncid := p.(refcount := p.refcount - 1)]
              else if releaseRet < 0 then
                r == releaseRet && tab[..] == old(tab[..])[syncid := p.(refcount := 0)]
              else
                r == 0 && tab[..] == old(tab[..])[syncid := Freed(p)]
      ensures old(Valid()) && (old(tab[syncid].refcount) != 1 || releaseRet >= 0) ==> Valid()
      ensures old(tab[syncid].res.used) && old(tab[syncid].refcount) == 1 && releaseRet < 0 ==> !Valid()
    {
      tab[syncid] := tab[syncid].(refcount := tab[syncid].refcount - 1);
      if tab[syncid].refcount == 0 {
        if releaseRet < 0 {
          return releaseRet;
        }
        tab[syncid] := tab[syncid].(fd := -1, masternum := -1, footprint := Zero);
        tab[syncid] := tab[syncid].(res := tab[syncid].res.(used := false));
      }
      return 0;
    }

    /** Whether `syncid` names a used slot of direction `dir`. */
    predicate Usable(syncid: int, dir: Direction)
      reads tab
    {
      IsValid(syncid) && tab[syncid].res.used && Faces(tab[syncid].res, dir)
    }

    /** do_sync_unlink: -EBADF unless `syncid` names a used input point; then releases it. */
    method Unlink(syncid: int, releaseRet: int) returns (r: int)
      modifies tab
      ensures !old(Usable(syncid, Input)) ==> r == -EBADF && tab[..] == old(tab[..])
      ensures old(Usable(syncid, Input)) ==>
                var p := old(tab[syncid]);
                if p.refcount != 1 then
                  r == 0 && tab[..] == old(tab[..])[syncid := p.(refcount := p.refcount - 1)]
                else if releaseRet < 0 then
                  r == releaseRet && tab[..] == old(tab[..])[syncid := p.(refcount := 0)]
                else
                  r == 0 && tab[..] == old(tab[..])[syncid := Freed(p)]
    {
      if !IsValid(syncid) {
        return -EBADF;
      }
      if !tab[syncid].res.used {
        return -EBADF;
      }
      if !tab[syncid].res.readable {
        return -EBADF;
      }
      r := Release(syncid, releaseRet);
    }

    /** do_sync_close: -EBADF unless `syncid` names a used output point; then releases it. */
    method Close(syncid: int, releaseRet: int) returns (r: int)
      modifies tab
      ensures !old(Usable(syncid, Output)) ==> r == -EBADF && tab[..] == old(tab[..])
      ensures old(Usable(syncid, Output)) ==>
                var p := old(tab[syncid]);
                if p.refcount != 1 then
                  r == 0 && tab[..] == old(tab[..])[syncid := p.(refcount := p.refcount - 1)]
                else if releaseRet < 0 then
                  r == releaseRet && tab[..] == old(tab[..])[syncid := p.(refcount := 0)]
                else
                  r == 0 && tab[..] == old(tab[..])[syncid := Freed(p)]
    {
      if !IsValid(syncid) {
        return -EBADF;
      }
      if !tab[syncid].res.used {
        return -EBADF;
      }
      if !tab[syncid].res.writable {
        return -EBADF;
      }
      r := Release(syncid, releaseRet);
    }

    /**
      * do_sync_wait: -EBADF unless `syncid` names a used input point;
      * otherwise what sync_wait returns (`hwRet`).  The table is not changed.
      */
    method Wait(syncid: int, hwRet: int) returns (r: int)
      ensures Usable(syncid, Input) ==> r == hwRet
      ensures !Usable(syncid, Input) ==> r == -EBADF
    {
      if !IsValid(syncid) {
        return -EBADF;
      }
      if !tab[syncid].res.used {
        return -EBADF;
      }
      if !tab[syncid].res.readable {
        return -EBADF;
      }
      return hwRet;
    }

    /**
      * do_sync_signal: -EBADF unless `syncid` names a used output point;
      * otherwise what sync_signal returns (`hwRet`).  The table is not changed.
      */
    method Signal(syncid: int, hwRet: int) returns (r: int)
      ensures Usable(syncid, Output) ==> r == hwRet
      ensures !Usable(syncid, Output) ==> r == -EBADF
    {
      if !IsValid(syncid) {
        return -EBADF;
      }
      if !tab[syncid].res.used {
        return -EBADF;
      }
      if !tab[syncid].res.writable {
        return -EBADF;
      }
      return hwRet;
    }
  }
}
