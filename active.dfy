/**
  * The table of active hardware channels (mailbox or portal endpoints).
  *
  * Each active channel multiplexes a pool of ports.  A port is handed out by
  * `Alloc` and given back by `Release`; a logical address packs the channel
  * index and the port index into one integer.  Asynchronous transfers bind a
  * message buffer to a port: `ARead`/`AWrite` make the channel busy, `Wait`
  * makes it idle again and gives the buffer back.  Buffers come from a pool
  * that also holds messages delivered to a port before anyone asked for them.
  */
module ActiveChannels {
  import opened Errno
  import opened Slots

  /** ACTIVE_ANY_SRC: the source that matches every source in a buffer search. */
  const ANY_SRC: int := -1

  /** COMM_TYPE_INPUT / COMM_TYPE_OUTPUT: the direction a search asks for. */
  datatype CommType = CommInput | CommOutput

  /** One port of a channel: its resource flags and the bound buffer (or -1). */
  datatype Port = Port(res: Resource, mbufferid: int)

  /** One slot of the channel table. */
  datatype Active = Active(res: Resource, hwfd: int, local: int, remote: int, refcount: int, ports: seq<Port>)

  /** A message as it sits in a buffer. */
  datatype Message = Message(dest: int, src: int, payload: seq<int>)

  /**
    * One buffer of the buffer pool.  `kept` marks a message released with
    * MBUFFER_KEEP_MESSAGE: it waits in the pool until a read collects it.
    */
  datatype Mbuffer = Mbuffer(msg: Message, kept: bool)

  /** What a caller passes to a transfer: the remote address and the payload. */
  datatype CommConfig = CommConfig(remote: int, payload: seq<int>)

  /** The contents of a buffer straight out of the pool. */
  const Blank: Message := Message(-1, -1, [])

  predicate PortUsed(p: Port) { p.res.used }

  predicate PortFree(p: Port) { !p.res.used }

  predicate ActiveFree(a: Active) { !a.res.used }

  /*==========================================================================*
   * Logical addresses                                                        *
   *==========================================================================*/

  /** C division of `a` by a positive `b`, truncating toward zero. */
  function CDiv(a: int, b: int): int
    requires b > 0
  {
    if a >= 0 then a / b else -((-a) / b)
  }

  /** C remainder by a positive `b`, whose sign follows `a`. */
  function CMod(a: int, b: int): int
    requires b > 0
  {
    if a >= 0 then a % b else -((-a) % b)
  }

  /** ACTIVE_LADDRESS_COMPOSE: channel `fd`, port `port`, `nports` ports per channel. */
  function Compose(fd: int, port: int, nports: int): int
  {
    fd * nports + port
  }

  /** ACTIVE_GET_LADDRESS_FD: the channel part of a logical address. */
  function AddressFd(addr: int, nports: int): int
    requires nports > 0
  {
    CDiv(addr, nports)
  }

  /** ACTIVE_GET_LADDRESS_PORT: the port part of a logical address. */
  function AddressPort(addr: int, nports: int): int
    requires nports > 0
  {
    CMod(addr, nports)
  }

  lemma DivUnique(a: int, n: int, q: int, r: int)
    requires n > 0 && 0 <= r < n && a == q * n + r
    ensures a / n == q && a % n == r
  {
    var d := q - a / n;
    assert d * n == a % n - r;
  }

  /** Decoding a composed address gives back the channel and the port. */
  lemma AddressRoundTrip(fd: nat, port: int, nports: int)
    requires 0 <= port < nports
    ensures AddressFd(Compose(fd, port, nports), nports) == fd
    ensures AddressPort(Compose(fd, port, nports), nports) == port
  {
    DivUnique(Compose(fd, port, nports), nports, fd, port);
  }

  /** Distinct (channel, port) pairs get distinct addresses. */
  lemma AddressesAreDistinct(fd1: nat, port1: int, fd2: nat, port2: int, nports: int)
    requires 0 <= port1 < nports && 0 <= port2 < nports
    requires Compose(fd1, port1, nports) == Compose(fd2, port2, nports)
    ensures fd1 == fd2 && port1 == port2
  {
    AddressRoundTrip(fd1, port1, nports);
    AddressRoundTrip(fd2, port2, nports);
  }

  /*==========================================================================*
   * Ports                                                                    *
   *==========================================================================*/

  /**
    * The port active_choose_port picks: none (-EINVAL) once refcount has
    * reached the number of ports, else the lowest unused port, or -EINVAL
    * when every port is used.
    */
  function ChosenPort(a: Active, nports: int): (r: int)
    ensures r == -EINVAL || (0 <= r < |a.ports| && PortFree(a.ports[r]))
    ensures r >= 0 ==> a.refcount < nports && forall j :: 0 <= j < r ==> a.ports[j].res.used
    ensures a.refcount < nports && (exists j :: 0 <= j < |a.ports| && PortFree(a.ports[j])) ==> r >= 0
  {
    var f := FirstIndex(a.ports, PortFree);
    if a.refcount < nports && f >= 0 then f else -EINVAL
  }

  /**
    * While the reference count is the number of used ports, the refcount
    * guard of active_choose_port is redundant: a port is chosen exactly when
    * some port is unused.
    */
  lemma RefcountGuardIsRedundant(a: Active, nports: int)
    requires |a.ports| == nports
    requires a.refcount == CountWhere(a.ports, PortUsed)
    ensures ChosenPort(a, nports) >= 0 <==> exists j :: 0 <= j < |a.ports| && PortFree(a.ports[j])
  {
    if exists j :: 0 <= j < |a.ports| && PortFree(a.ports[j]) {
      var j :| 0 <= j < |a.ports| && PortFree(a.ports[j]);
      assert !PortUsed(a.ports[j]);
    }
  }

  /** The port active_alloc settles on: chosen for output, checked for input. */
  function PortToTake(a: Active, portid: int, typ: CommType, nports: int): (p: int)
    ensures p == -EINVAL || 0 <= p < nports || (typ == CommOutput && 0 <= p < |a.ports|)
    ensures typ == CommInput ==> (p >= 0 <==> 0 <= portid < nports) && (p >= 0 ==> p == portid)
  {
    if typ == CommOutput then ChosenPort(a, nports)
    else if 0 <= portid < nports then portid
    else -EINVAL
  }

  /** Port `p` of `a` marked used, and one more reference on the channel. */
  function Attached(a: Active, p: int): Active
    requires 0 <= p < |a.ports|
  {
    a.(ports := a.ports[p := a.ports[p].(res := a.ports[p].res.(used := true))], refcount := a.refcount + 1)
  }

  /** Port `p` of `a` marked unused, and one reference less on the channel. */
  function Detached(a: Active, p: int): Active
    requires 0 <= p < |a.ports|
  {
    a.(ports := a.ports[p := a.ports[p].(res := a.ports[p].res.(used := false))], refcount := a.refcount - 1)
  }

  /** Buffer `m` bound to port `p` of `a` (-1: no buffer). */
  function Bound(a: Active, p: int, m: int): Active
    requires 0 <= p < |a.ports|
  {
    a.(ports := a.ports[p := a.ports[p].(mbufferid := m)])
  }

  /** Attaching a free port keeps the reference count equal to the number of used ports. */
  lemma AttachedKeepsCount(a: Active, p: int)
    requires 0 <= p < |a.ports| && !a.ports[p].res.used
    requires a.refcount == CountWhere(a.ports, PortUsed)
    ensures Attached(a, p).refcount == CountWhere(Attached(a, p).ports, PortUsed)
    ensures Attached(a, p).ports[p].res.used
  {
    CountWhereUpdate(a.ports, p, a.ports[p].(res := a.ports[p].res.(used := true)), PortUsed);
  }

  /** Detaching a used port keeps the reference count equal to the number of used ports. */
  lemma DetachedKeepsCount(a: Active, p: int)
    requires 0 <= p < |a.ports| && a.ports[p].res.used
    requires a.refcount == CountWhere(a.ports, PortUsed)
    ensures Detached(a, p).refcount == CountWhere(Detached(a, p).ports, PortUsed)
    ensures !Detached(a, p).ports[p].res.used
  {
    CountWhereUpdate(a.ports, p, a.ports[p].(res := a.ports[p].res.(used := false)), PortUsed);
  }

  /** Binding a buffer to a port does not change which ports are used. */
  lemma BoundKeepsCount(a: Active, p: int, m: int)
    requires 0 <= p < |a.ports|
    ensures CountWhere(Bound(a, p, m).ports, PortUsed) == CountWhere(a.ports, PortUsed)
  {
    CountWhereUpdate(a.ports, p, a.ports[p].(mbufferid := m), PortUsed);
  }

  /** Releasing the port just allocated gives back the channel as it was. */
  lemma AttachThenDetach(a: Active, p: int)
    requires 0 <= p < |a.ports| && !a.ports[p].res.used
    ensures Detached(Attached(a, p), p) == a
  {
    assert Detached(Attached(a, p), p).ports == a.ports;
  }

  /** After a release the same port is the first one output allocation chooses, if every port before it is used. */
  lemma DetachedPortIsChosenAgain(a: Active, p: int, nports: int)
    requires 0 <= p < |a.ports| == nports && a.ports[p].res.used
    requires a.refcount == CountWhere(a.ports, PortUsed)
    requires forall j :: 0 <= j < p ==> a.ports[j].res.used
    ensures ChosenPort(Detached(a, p), nports) == p
  {
    DetachedKeepsCount(a, p);
    var d := Detached(a, p);
    assert PortFree(d.ports[p]);
    assert forall j :: 0 <= j < p ==> d.ports[j] == a.ports[j];
    assert d.refcount < nports by {
      assert !PortUsed(d.ports[p]);
    }
  }

  /*==========================================================================*
   * Channel search and initialisation                                        *
   *==========================================================================*/

  /**
    * What active_search accepts: a used slot, readable when input is asked
    * for, writable when output is asked for, with the given endpoints.
    */
  function Fits(local: int, remote: int, typ: CommType): Active -> bool
  {
    (a: Active) => a.res.used && !(typ == CommInput && !a.res.readable)
                   && !(typ == CommOutput && !a.res.writable) && a.local == local && a.remote == remote
  }

  /**
    * A slot taken by _active_alloc and set up by active_create (input, read
    * only) or active_open (output, write only).
    */
  function Initialised(a: Active, typ: CommType, hwfd: int, local: int, remote: int): (c: Active)
    ensures c.res.used && !c.res.busy && c.refcount == 0 && c.ports == a.ports && c.hwfd == hwfd
    ensures Fits(local, remote, typ)(c)
    ensures typ == CommInput ==> c.res.readable && !c.res.writable
    ensures typ == CommOutput ==> c.res.writable && !c.res.readable
  {
    var res := Initializer.(used := true);
    a.(res := if typ == CommInput then SetRdonly(res) else SetWronly(res),
       hwfd := hwfd, local := local, remote := remote, refcount := 0)
  }

  /**
    * When no slot fitted a search, a slot updated into one that fits is the
    * only hit, so the search now returns it.
    */
  lemma {:induction false} OnlyHitIsFound(s: seq<Active>, f: int, c: Active, local: int, remote: int, typ: CommType)
    requires 0 <= f < |s|
    requires FirstIndex(s, Fits(local, remote, typ)) < 0
    requires Fits(local, remote, typ)(c)
    ensures FirstIndex(s[f := c], Fits(local, remote, typ)) == f
  {
    var t := s[f := c];
    assert Fits(local, remote, typ)(t[f]);
    forall j | 0 <= j < f ensures !Fits(local, remote, typ)(t[j]) {
      assert t[j] == s[j];
    }
  }

  /** A slot updated into one that does not fit leaves a failing search failing. */
  lemma {:induction false} MissStaysMissing(s: seq<Active>, f: int, c: Active, local: int, remote: int, typ: CommType)
    requires 0 <= f < |s|
    requires FirstIndex(s, Fits(local, remote, typ)) < 0
    requires !Fits(local, remote, typ)(c)
    ensures FirstIndex(s[f := c], Fits(local, remote, typ)) < 0
  {
    var t := s[f := c];
    forall j | 0 <= j < |t| ensures !Fits(local, remote, typ)(t[j]) {
      if j != f {
        assert t[j] == s[j];
      }
    }
  }

  /*==========================================================================*
   * Buffer pool                                                              *
   *==========================================================================*/

  /** A kept message for `dest` from `src` (any source when `src` is ANY_SRC). */
  predicate Pending(b: Mbuffer, dest: int, src: int)
  {
    b.kept && b.msg.dest == dest && (src == ANY_SRC || b.msg.src == src)
  }

  /** mbuffer_search: the lowest id in [k, max) holding a pending message, or -1. */
  function PendingFrom(bufs: map<int, Mbuffer>, k: nat, max: nat, dest: int, src: int): (r: int)
    decreases max - k
    ensures r == -1 || (k <= r < max && r in bufs && Pending(bufs[r], dest, src))
    ensures r == -1 <==> forall m :: k <= m < max && m in bufs ==> !Pending(bufs[m], dest, src)
    ensures r >= 0 ==> forall m :: k <= m < r && m in bufs ==> !Pending(bufs[m], dest, src)
  {
    if k >= max then -1
    else if k in bufs && Pending(bufs[k], dest, src) then k
    else PendingFrom(bufs, k + 1, max, dest, src)
  }

  /** mbuffer_alloc's choice: the lowest id in [k, max) that is not taken, or -1. */
  function FreeFrom(bufs: map<int, Mbuffer>, k: nat, max: nat): (r: int)
    decreases max - k
    ensures r == -1 || (k <= r < max && r !in bufs)
    ensures r == -1 <==> forall m :: k <= m < max ==> m in bufs
    ensures r >= 0 ==> forall m :: k <= m < r ==> m in bufs
  {
    if k >= max then -1
    else if k !in bufs then k
    else FreeFrom(bufs, k + 1, max)
  }

  /** What mbuffer_alloc returns: the free id, or -EAGAIN when the pool is full. */
  function Allocated(bufs: map<int, Mbuffer>, max: nat): int
  {
    var f := FreeFrom(bufs, 0, max);
    if f >= 0 then f else -EAGAIN
  }

  /**
    * A message an output port keeps in the pool for a local reader is found
    * by that reader's search, whichever buffer it went into.
    */
  lemma {:induction false} KeptMessageIsPending(bufs: map<int, Mbuffer>, m: nat, max: nat, msg: Message, src: int)
    requires m < max
    requires src == ANY_SRC || src == msg.src
    ensures PendingFrom(bufs[m := Mbuffer(msg, true)], 0, max, msg.dest, src) >= 0
  {
    var b := bufs[m := Mbuffer(msg, true)];
    assert m in b && Pending(b[m], msg.dest, src);
  }

  /*==========================================================================*
   * Invariant of the table                                                   *
   *==========================================================================*/

  /** Buffer `m`, bound to port `p` of channel `i`, is taken, not kept, and owned by that port alone. */
  ghost predicate BindingOk(bufs: map<int, Mbuffer>, owner: map<int, (int, int)>, i: int, p: int, m: int)
  {
    m in bufs && !bufs[m].kept && m in owner && owner[m] == (i, p)
  }

  /**
    * Channel `i` has `nports` ports, its reference count is the number of
    * used ports (none for a free slot), and each buffer bound to one of its
    * ports belongs to that port.
    */
  ghost predicate ChannelOk(a: Active, i: int, nports: int, bufs: map<int, Mbuffer>, owner: map<int, (int, int)>)
  {
    |a.ports| == nports && a.refcount == CountWhere(a.ports, PortUsed) && (!a.res.used ==> a.refcount == 0) &&
    forall p :: 0 <= p < |a.ports| && a.ports[p].mbufferid >= 0 ==> BindingOk(bufs, owner, i, p, a.ports[p].mbufferid)
  }

  /** Every channel is well formed and every taken buffer id is below the pool capacity. */
  ghost predicate TableOk(s: seq<Active>, nports: int, bufs: map<int, Mbuffer>, owner: map<int, (int, int)>, max: int)
  {
    nports >= 1 && (forall m :: m in bufs ==> 0 <= m < max) &&
    forall i :: 0 <= i < |s| ==> ChannelOk(s[i], i, nports, bufs, owner)
  }

  /** Taking a free port of a used channel keeps it well formed. */
  lemma ChannelAttached(a: Active, i: int, p: int, nports: int, bufs: map<int, Mbuffer>, owner: map<int, (int, int)>)
    requires ChannelOk(a, i, nports, bufs, owner) && a.res.used
    requires 0 <= p < |a.ports| && !a.ports[p].res.used
    ensures ChannelOk(Attached(a, p), i, nports, bufs, owner)
  {
    AttachedKeepsCount(a, p);
    var c := Attached(a, p);
    forall q | 0 <= q < |c.ports| && c.ports[q].mbufferid >= 0
      ensures BindingOk(bufs, owner, i, q, c.ports[q].mbufferid)
    {
      assert c.ports[q].mbufferid == a.ports[q].mbufferid;
    }
  }

  /** Giving back a used port keeps the channel well formed. */
  lemma ChannelDetached(a: Active, i: int, p: int, nports: int, bufs: map<int, Mbuffer>, owner: map<int, (int, int)>)
    requires ChannelOk(a, i, nports, bufs, owner)
    requires 0 <= p < |a.ports| && a.ports[p].res.used
    ensures ChannelOk(Detached(a, p), i, nports, bufs, owner)
  {
    DetachedKeepsCount(a, p);
    var c := Detached(a, p);
    assert !a.res.used ==> false by {
      assert PortUsed(a.ports[p]);
    }
    forall q | 0 <= q < |c.ports| && c.ports[q].mbufferid >= 0
      ensures BindingOk(bufs, owner, i, q, c.ports[q].mbufferid)
    {
      assert c.ports[q].mbufferid == a.ports[q].mbufferid;
    }
  }

  /**
    * Binding buffer `m` to port `p` (or unbinding it, `m` < 0) and changing
    * the channel's busy flag and remote keeps the channel well formed.
    */
  lemma ChannelBound(a: Active, i: int, p: int, m: int, c: Active, nports: int, bufs: map<int, Mbuffer>, owner: map<int, (int, int)>)
    requires ChannelOk(a, i, nports, bufs, owner)
    requires 0 <= p < |a.ports|
    requires m < 0 || BindingOk(bufs, owner, i, p, m)
    requires c == Bound(a, p, m).(res := c.res, remote := c.remote) && c.res.used == a.res.used
    ensures ChannelOk(c, i, nports, bufs, owner)
  {
    BoundKeepsCount(a, p, m);
    forall q | 0 <= q < |c.ports| && c.ports[q].mbufferid >= 0
      ensures BindingOk(bufs, owner, i, q, c.ports[q].mbufferid)
    {
      if q != p {
        assert c.ports[q].mbufferid == a.ports[q].mbufferid;
      }
    }
  }

  /** A slot changing only its flags and descriptor fields stays well formed while its count stays consistent. */
  lemma ChannelRelabelled(a: Active, c: Active, i: int, nports: int, bufs: map<int, Mbuffer>, owner: map<int, (int, int)>)
    requires ChannelOk(a, i, nports, bufs, owner)
    requires c.ports == a.ports && c.refcount == a.refcount && (!c.res.used ==> c.refcount == 0)
    ensures ChannelOk(c, i, nports, bufs, owner)
  {
  }

  /** Replacing channel `k` by a well-formed one keeps the table well formed. */
  lemma {:induction false} TableUpdated(s: seq<Active>, k: int, c: Active, nports: int, bufs: map<int, Mbuffer>, owner: map<int, (int, int)>, max: int)
    requires TableOk(s, nports, bufs, owner, max) && 0 <= k < |s|
    requires ChannelOk(c, k, nports, bufs, owner)
    ensures TableOk(s[k := c], nports, bufs, owner, max)
  {
    var t := s[k := c];
    forall i | 0 <= i < |t| ensures ChannelOk(t[i], i, nports, bufs, owner) {
      if i != k {
        assert t[i] == s[i];
      }
    }
  }

  /** Taking a free port of a used channel keeps the table well formed. */
  lemma TablePortAttached(s: seq<Active>, k: int, p: int, nports: int, bufs: map<int, Mbuffer>, owner: map<int, (int, int)>, max: int)
    requires TableOk(s, nports, bufs, owner, max) && 0 <= k < |s| && s[k].res.used
    requires 0 <= p < |s[k].ports| && !s[k].ports[p].res.used
    ensures TableOk(s[k := Attached(s[k], p)], nports, bufs, owner, max)
  {
    ChannelAttached(s[k], k, p, nports, bufs, owner);
    TableUpdated(s, k, Attached(s[k], p), nports, bufs, owner, max);
  }

  /** Giving back a used port keeps the table well formed. */
  lemma TablePortDetached(s: seq<Active>, k: int, p: int, nports: int, bufs: map<int, Mbuffer>, owner: map<int, (int, int)>, max: int)
    requires TableOk(s, nports, bufs, owner, max) && 0 <= k < |s|
    requires 0 <= p < |s[k].ports| && s[k].ports[p].res.used
    ensures TableOk(s[k := Detached(s[k], p)], nports, bufs, owner, max)
  {
    ChannelDetached(s[k], k, p, nports, bufs, owner);
    TableUpdated(s, k, Detached(s[k], p), nports, bufs, owner, max);
  }

  /**
    * Binding buffer `m` to port `p` of channel `k` (or unbinding it, `m` < 0),
    * together with a new busy flag and remote, keeps the table well formed.
    */
  lemma TableRebound(s: seq<Active>, k: int, p: int, m: int, c: Active, nports: int, bufs: map<int, Mbuffer>, owner: map<int, (int, int)>, max: int)
    requires TableOk(s, nports, bufs, owner, max) && 0 <= k < |s| && 0 <= p < |s[k].ports|
    requires m < 0 || BindingOk(bufs, owner, k, p, m)
    requires c == Bound(s[k], p, m).(res := c.res, remote := c.remote) && c.res.used == s[k].res.used
    ensures TableOk(s[k := c], nports, bufs, owner, max)
  {
    ChannelBound(s[k], k, p, m, c, nports, bufs, owner);
    TableUpdated(s, k, c, nports, bufs, owner, max);
  }

  /** A slot that changes only flags and descriptor fields, with a consistent count, keeps the table well formed. */
  lemma TableRelabelled(s: seq<Active>, k: int, c: Active, nports: int, bufs: map<int, Mbuffer>, owner: map<int, (int, int)>, max: int)
    requires TableOk(s, nports, bufs, owner, max) && 0 <= k < |s|
    requires c.ports == s[k].ports && c.refcount == s[k].refcount && (!c.res.used ==> c.refcount == 0)
    ensures TableOk(s[k := c], nports, bufs, owner, max)
  {
    ChannelRelabelled(s[k], c, k, nports, bufs, owner);
    TableUpdated(s, k, c, nports, bufs, owner, max);
  }

  /** A buffer taken at a free id below the capacity disturbs no channel. */
  lemma {:induction false} TableGrows(s: seq<Active>, nports: int, bufs: map<int, Mbuffer>, owner: map<int, (int, int)>, max: int, f: int, b: Mbuffer)
    requires TableOk(s, nports, bufs, owner, max)
    requires 0 <= f < max && f !in bufs
    ensures TableOk(s, nports, bufs[f := b], owner, max)
  {
    var bufs' := bufs[f := b];
    forall i | 0 <= i < |s| ensures ChannelOk(s[i], i, nports, bufs', owner) {
      var a := s[i];
      forall q | 0 <= q < |a.ports| && a.ports[q].mbufferid >= 0
        ensures BindingOk(bufs', owner, i, q, a.ports[q].mbufferid)
      {
        assert BindingOk(bufs, owner, i, q, a.ports[q].mbufferid);
      }
    }
  }

  /** Recording the owner of an id no channel can be bound to (it is not taken) disturbs no channel. */
  lemma {:induction false} TableClaims(s: seq<Active>, nports: int, bufs: map<int, Mbuffer>, owner: map<int, (int, int)>, max: int, f: int, o: (int, int))
    requires TableOk(s, nports, bufs, owner, max)
    requires f !in bufs
    ensures TableOk(s, nports, bufs, owner[f := o], max)
  {
    var owner' := owner[f := o];
    forall i | 0 <= i < |s| ensures ChannelOk(s[i], i, nports, bufs, owner') {
      var a := s[i];
      forall q | 0 <= q < |a.ports| && a.ports[q].mbufferid >= 0
        ensures BindingOk(bufs, owner', i, q, a.ports[q].mbufferid)
      {
        assert BindingOk(bufs, owner, i, q, a.ports[q].mbufferid);
      }
    }
  }

  /**
    * Buffer `m` changes or leaves the pool, where no port is bound to `m`:
    * either it holds a kept message, or it belongs to port `p0` of channel
    * `i0`, which no longer has a buffer.  Every channel stays well formed.
    */
  lemma {:induction false} TableForgets(s: seq<Active>, nports: int, bufs: map<int, Mbuffer>, owner: map<int, (int, int)>, max: int,
                                        m: int, i0: int, p0: int, bufs': map<int, Mbuffer>)
    requires TableOk(s, nports, bufs, owner, max)
    requires m in bufs
    requires (bufs[m].kept) || (m in owner && owner[m] == (i0, p0) && 0 <= i0 < |s| && 0 <= p0 < |s[i0].ports| && s[i0].ports[p0].mbufferid < 0)
    requires forall x :: x in bufs' ==> x in bufs
    requires forall x :: x != m && x in bufs ==> x in bufs' && bufs'[x] == bufs[x]
    ensures TableOk(s, nports, bufs', owner, max)
  {
    forall i | 0 <= i < |s| ensures ChannelOk(s[i], i, nports, bufs', owner) {
      var a := s[i];
      forall q | 0 <= q < |a.ports| && a.ports[q].mbufferid >= 0
        ensures BindingOk(bufs', owner, i, q, a.ports[q].mbufferid)
      {
        assert BindingOk(bufs, owner, i, q, a.ports[q].mbufferid);
        assert a.ports[q].mbufferid != m;
      }
    }
  }

  /*==========================================================================*
   * The channel table                                                        *
   *==========================================================================*/

  class ActivePool {
    const actives: array<Active>
    /** Ports per channel (the same for every channel of the table). */
    const nports: nat
    /** Capacity of the buffer pool. */
    const mbufferMax: nat
    /** The nodes node_is_local accepts. */
    const localNodes: set<int>
    /** The buffer pool: taken ids and their buffers. */
    var mbuffers: map<int, Mbuffer>
    /** Which (channel, port) each bound buffer was bound to. */
    ghost var owner: map<int, (int, int)>

    ghost predicate Valid()
      reads this, actives
    {
      TableOk(actives[..], nports, mbuffers, owner, mbufferMax)
    }

    /** A logical address whose channel part indexes the table. */
    predicate ValidId(id: int)
      reads this
    {
      nports >= 1 && 0 <= id && id / nports < actives.Length
    }

    /** A table of `n` unused channels with `nports` free ports each, and an empty buffer pool. */
    constructor (n: nat, nports: nat, mbufferMax: nat, localNodes: set<int>)
      requires nports >= 1
      ensures Valid() && fresh(actives)
      ensures actives.Length == n && this.nports == nports && this.mbufferMax == mbufferMax
      ensures this.localNodes == localNodes && mbuffers == map[]
      ensures forall i :: 0 <= i < n ==> ActiveFree(actives[i]) && actives[i].refcount == 0
    {
      var ports := seq(nports, _ => Port(Initializer, -1));
      assert forall j :: 0 <= j < |ports| ==> !PortUsed(ports[j]);
      var unopened := Active(Initializer, -1, -1, -1, 0, ports);
      actives := new Active[n](_ => unopened);
      this.nports := nports;
      this.mbufferMax := mbufferMax;
      this.localNodes := localNodes;
      mbuffers := map[];
      owner := map[];
      new;
      assert forall i :: 0 <= i < n ==> actives[..][i] == unopened;
    }

    /** active_choose_port on channel `i`. */
    method ChoosePort(i: int) returns (r: int)
      requires Valid() && 0 <= i < actives.Length
      ensures r == ChosenPort(actives[i], nports)
    {
      r := -EINVAL;
      var a := actives[i];
      assert a == actives[..][i];
      if a.refcount < nports {
        var j := 0;
        while j < nports
          invariant 0 <= j <= nports
          invariant forall k :: 0 <= k < j ==> !PortFree(a.ports[k])
        {
          if a.ports[j].res.used {
            j := j + 1;
            continue;
          }
          assert FirstIndex(a.ports, PortFree) == j;
          r := j;
          break;
        }
      }
    }

    /** active_search: the lowest slot that fits, or -EINVAL.  Nothing changes. */
    method Search(local: int, remote: int, typ: CommType) returns (r: int)
      ensures FirstIndex(actives[..], Fits(local, remote, typ)) >= 0 ==> r == FirstIndex(actives[..], Fits(local, remote, typ))
      ensures FirstIndex(actives[..], Fits(local, remote, typ)) < 0 ==> r == -EINVAL
      ensures r >= 0 ==> actives[r].res.used && actives[r].local == local && actives[r].remote == remote
                         && (typ == CommInput ==> actives[r].res.readable) && (typ == CommOutput ==> actives[r].res.writable)
    {
      var i := 0;
      while i < actives.Length
        invariant 0 <= i <= actives.Length
        invariant forall j :: 0 <= j < i ==> !Fits(local, remote, typ)(actives[..][j])
      {
        var a := actives[i];
        if !a.res.used {
          i := i + 1;
          continue;
        }
        if typ == CommInput && !a.res.readable {
          i := i + 1;
          continue;
        } else if typ == CommOutput && !a.res.writable {
          i := i + 1;
          continue;
        }
        if a.local != local || a.remote != remote {
          i := i + 1;
          continue;
        }
        assert Fits(local, remote, typ)(actives[..][i]);
        return i;
      }
      return -EINVAL;
    }

    /** mbuffer_search over the buffer pool. */
    method MbufferSearch(dest: int, src: int) returns (m: int)
      ensures m == PendingFrom(mbuffers, 0, mbufferMax, dest, src)
    {
      m := 0;
      while m < mbufferMax
        invariant 0 <= m <= mbufferMax
        invariant PendingFrom(mbuffers, 0, mbufferMax, dest, src) == PendingFrom(mbuffers, m, mbufferMax, dest, src)
      {
        if m in mbuffers && Pending(mbuffers[m], dest, src) {
          return;
        }
        m := m + 1;
      }
      m := -1;
    }

    /** mbuffer_alloc: the lowest free id gets a blank buffer; -EAGAIN when the pool is full. */
    method MbufferAlloc() returns (m: int)
      modifies this`mbuffers
      ensures m == Allocated(old(mbuffers), mbufferMax)
      ensures m >= 0 ==> m !in old(mbuffers) && m < mbufferMax && mbuffers == old(mbuffers)[m := Mbuffer(Blank, false)]
      ensures m < 0 ==> mbuffers == old(mbuffers)
    {
      m := 0;
      while m < mbufferMax
        invariant 0 <= m <= mbufferMax
        invariant FreeFrom(mbuffers, 0, mbufferMax) == FreeFrom(mbuffers, m, mbufferMax)
      {
        if m !in mbuffers {
          mbuffers := mbuffers[m := Mbuffer(Blank, false)];
          return;
        }
        m := m + 1;
      }
      m := -EAGAIN;
    }

    /**
      * active_alloc: finds the channel, settles on a port, and takes it when
      * it is free, returning its logical address.  An unknown channel or a
      * bad port gives -EINVAL, a used port -EBUSY; both change nothing.
      */
    method Alloc(local: int, remote: int, portid: int, typ: CommType) returns (r: int)
      requires Valid()
      modifies actives
      ensures Valid()
      ensures var k := FirstIndex(old(actives[..]), Fits(local, remote, typ));
              var p := if k < 0 then -EINVAL else PortToTake(old(actives[k]), portid, typ, nports);
              if p < 0 then r == -EINVAL && actives[..] == old(actives[..])
              else if old(actives[k]).ports[p].res.used then r == -EBUSY && actives[..] == old(actives[..])
              else r == Compose(k, p, nports) && actives[..] == old(actives[..])[k := Attached(old(actives[k]), p)]
    {
      ghost var s := actives[..];
      var actid := Search(local, remote, typ);
      if actid < 0 {
        return actid;
      }
      var a := actives[actid];
      assert a == s[actid];
      var p := portid;
      if typ == CommOutput {
        p := ChoosePort(actid);
        if p < 0 {
          return p;
        }
      } else if !(0 <= p < nports) {
        return -EINVAL;
      }
      assert p == PortToTake(a, portid, typ, nports);
      if !a.ports[p].res.used {
        TablePortAttached(s, actid, p, nports, mbuffers, owner, mbufferMax);
        actives[actid] := Attached(a, p);
        assert actives[..] == s[actid := Attached(a, p)];
        r := Compose(actid, p, nports);
      } else {
        r := -EBUSY;
      }
    }

    /**
      * active_release: on a readable channel a message still pending for the
      * port's address blocks the release (-EBUSY); an unused port gives
      * -EINVAL; otherwise the port is given back.
      */
    method Release(id: int) returns (r: int)
      requires Valid() && ValidId(id)
      modifies actives
      ensures Valid()
      ensures var i := AddressFd(id, nports);
              var p := AddressPort(id, nports);
              var a := old(actives[i]);
              if a.res.readable && PendingFrom(mbuffers, 0, mbufferMax, Compose(a.local, p, nports), ANY_SRC) >= 0 then
                r == -EBUSY && actives[..] == old(actives[..])
              else if !a.ports[p].res.used then r == -EINVAL && actives[..] == old(actives[..])
              else r == 0 && actives[..] == old(actives[..])[i := Detached(a, p)]
    {
      ghost var s := actives[..];
      var i := id / nports;
      var p := id % nports;
      assert i == AddressFd(id, nports) && p == AddressPort(id, nports);
      var a := actives[i];
      assert a == s[i];
      if a.res.readable {
        var m := MbufferSearch(Compose(a.local, p, nports), ANY_SRC);
        if m >= 0 {
          return -EBUSY;
        }
      }
      if a.ports[p].res.used {
        TablePortDetached(s, i, p, nports, mbuffers, owner, mbufferMax);
        actives[i] := Detached(a, p);
        assert actives[..] == s[i := Detached(a, p)];
        return 0;
      }
      return -EINVAL;
    }

    /**
      * The slow path of active_aread, on a used port `p` of channel `i` with
      * no pending message: a remote on the channel's own node gives
      * -ENOMSG, a busy channel -EBUSY, a failed do_allow (`allowRet`) and a
      * full pool their errors.  Otherwise a fresh buffer is bound to the
      * port; when do_aread (`areadRet`) fails it goes back to the pool and
      * the port is left with none, else the channel becomes busy with no
      * remote.
      */
    method StartRead(i: int, p: int, config: CommConfig, allowRet: int, areadRet: int) returns (r: int)
      requires Valid() && 0 <= i < actives.Length && 0 <= p < nports && actives[i].ports[p].res.used
      modifies this`mbuffers, this`owner, actives
      ensures Valid()
      ensures var a := old(actives[i]);
              var f := Allocated(old(mbuffers), mbufferMax);
              if a.local == AddressFd(config.remote, nports) then
                r == -ENOMSG && actives[..] == old(actives[..]) && mbuffers == old(mbuffers)
              else if a.res.busy then
                r == -EBUSY && actives[..] == old(actives[..]) && mbuffers == old(mbuffers)
              else if allowRet < 0 then
                r == allowRet && actives[..] == old(actives[..]) && mbuffers == old(mbuffers)
              else if f < 0 then
                r == f && actives[..] == old(actives[..]) && mbuffers == old(mbuffers)
              else if areadRet < 0 then
                r == areadRet && mbuffers == old(mbuffers) && actives[..] == old(actives[..])[i := Bound(a, p, -1)]
              else
                r == COMM_STATUS_SUCCESS && mbuffers == old(mbuffers)[f := Mbuffer(Blank, false)]
                && actives[..] == old(actives[..])[i := Bound(a, p, f).(remote := -1, res := a.res.(busy := true))]
    {
      ghost var s := actives[..];
      ghost var bufs0 := mbuffers;
      var a := actives[i];
      assert a == s[i];
      var remote := CDiv(config.remote, nports);
      if a.local == remote {
        return -ENOMSG;
      }
      if a.res.busy {
        return -EBUSY;
      }
      if allowRet < 0 {
        return allowRet;
      }

      var m := MbufferAlloc();
      if m < 0 {
        return m;
      }

      if areadRet < 0 {
        // The buffer bound for the read goes back to the pool and the port is left with none.
        TableRebound(s, i, p, -1, Bound(a, p, -1), nports, bufs0, owner, mbufferMax);
        actives[i] := Bound(a, p, -1);
        mbuffers := mbuffers - {m};
        assert mbuffers == bufs0;
        assert actives[..] == s[i := Bound(a, p, -1)];
        return areadRet;
      }

      var c := Bound(a, p, m).(remote := -1, res := a.res.(busy := true));
      TableClaims(s, nports, bufs0, owner, mbufferMax, m, (i, p));
      TableGrows(s, nports, bufs0, owner[m := (i, p)], mbufferMax, m, Mbuffer(Blank, false));
      owner := owner[m := (i, p)];
      TableRebound(s, i, p, m, c, nports, mbuffers, owner, mbufferMax);
      actives[i] := c;
      assert actives[..] == s[i := c];
      r := COMM_STATUS_SUCCESS;
    }

    /**
      * active_aread.  An unused port gives -EBADF.  A message already pending
      * for the port's address (from `config.remote`, or from anyone when it
      * is ANY_SRC) is handed over at once and its buffer given back
      * (COMM_STATUS_RECEIVED); otherwise the slow path above sets up a read.
      * `allowRet` and `areadRet` are what do_allow and do_aread return.
      */
    method ARead(id: int, config: CommConfig, allowRet: int, areadRet: int) returns (r: int, delivered: Option<seq<int>>)
      requires Valid() && ValidId(id)
      modifies this`mbuffers, this`owner, actives
      ensures Valid()
      ensures var i := AddressFd(id, nports);
              var p := AddressPort(id, nports);
              var a := old(actives[i]);
              var pend := PendingFrom(old(mbuffers), 0, mbufferMax, Compose(a.local, p, nports), config.remote);
              var f := Allocated(old(mbuffers), mbufferMax);
              if !a.ports[p].res.used then
                r == -EBADF && delivered == None && actives[..] == old(actives[..]) && mbuffers == old(mbuffers)
              else if pend >= 0 then
                r == COMM_STATUS_RECEIVED && delivered == Some(old(mbuffers)[pend].msg.payload)
                && actives[..] == old(actives[..]) && mbuffers == old(mbuffers) - {pend}
              else
                delivered == None &&
                if a.local == AddressFd(config.remote, nports) then
                  r == -ENOMSG && actives[..] == old(actives[..]) && mbuffers == old(mbuffers)
                else if a.res.busy then
                  r == -EBUSY && actives[..] == old(actives[..]) && mbuffers == old(mbuffers)
                else if allowRet < 0 then
                  r == allowRet && actives[..] == old(actives[..]) && mbuffers == old(mbuffers)
                else if f < 0 then
                  r == f && actives[..] == old(actives[..]) && mbuffers == old(mbuffers)
                else if areadRet < 0 then
                  r == areadRet && mbuffers == old(mbuffers) && actives[..] == old(actives[..])[i := Bound(a, p, -1)]
                else
                  r == COMM_STATUS_SUCCESS && mbuffers == old(mbuffers)[f := Mbuffer(Blank, false)]
                  && actives[..] == old(actives[..])[i := Bound(a, p, f).(remote := -1, res := a.res.(busy := true))]
    {
      ghost var s := actives[..];
      var i := id / nports;
      var p := id % nports;
      assert i == AddressFd(id, nports) && p == AddressPort(id, nports);
      var a := actives[i];
      assert a == s[i];
      delivered := None;

      if !a.ports[p].res.used {
        return -EBADF, None;
      }

      var m := MbufferSearch(Compose(a.local, p, nports), config.remote);
      if m >= 0 {
        delivered := Some(mbuffers[m].msg.payload);
        TableForgets(s, nports, mbuffers, owner, mbufferMax, m, 0, 0, mbuffers - {m});
        mbuffers := mbuffers - {m};
        return COMM_STATUS_RECEIVED, delivered;
      }

      r := StartRead(i, p, config, allowRet, areadRet);
    }

    /**
      * The buffer step of active_awrite, on a used port `p` of channel `i`.
      * A port that already has a buffer keeps it (0).  Otherwise a buffer is
      * taken from the pool (its error is returned when the pool is full) and
      * filled by do_copy with a message to `config.remote` stamped with
      * `copySrc`.  When the channel's remote node is local the buffer is kept
      * in the pool for the reader (COMM_STATUS_RECEIVED); otherwise it is
      * bound to the port (0).
      */
    method StageBuffer(i: int, p: int, config: CommConfig, copySrc: int) returns (r: int)
      requires Valid() && 0 <= i < actives.Length && 0 <= p < nports && actives[i].ports[p].res.used
      modifies this`mbuffers, this`owner, actives
      ensures Valid()
      ensures var a := old(actives[i]);
              var f := Allocated(old(mbuffers), mbufferMax);
              var msg := Message(config.remote, copySrc, config.payload);
              if a.ports[p].mbufferid >= 0 then
                r == 0 && actives[..] == old(actives[..]) && mbuffers == old(mbuffers)
              else if f < 0 then
                r == f && actives[..] == old(actives[..]) && mbuffers == old(mbuffers)
              else if a.remote in localNodes then
                r == COMM_STATUS_RECEIVED && actives[..] == old(actives[..]) && mbuffers == old(mbuffers)[f := Mbuffer(msg, true)]
              else
                r == 0 && actives[..] == old(actives[..])[i := Bound(a, p, f)] && mbuffers == old(mbuffers)[f := Mbuffer(msg, false)]
    {
      ghost var s := actives[..];
      ghost var bufs0 := mbuffers;
      var a := actives[i];
      assert a == s[i];
      if a.ports[p].mbufferid >= 0 {
        return 0;
      }
      var m := MbufferAlloc();
      if m < 0 {
        return m;
      }
      var msg := Message(config.remote, copySrc, config.payload);
      mbuffers := mbuffers[m := Mbuffer(msg, false)];
      if a.remote in localNodes {
        mbuffers := mbuffers[m := mbuffers[m].(kept := true)];
        assert mbuffers == bufs0[m := Mbuffer(msg, true)];
        TableGrows(s, nports, bufs0, owner, mbufferMax, m, Mbuffer(msg, true));
        return COMM_STATUS_RECEIVED;
      }
      assert mbuffers == bufs0[m := Mbuffer(msg, false)];
      TableClaims(s, nports, bufs0, owner, mbufferMax, m, (i, p));
      TableGrows(s, nports, bufs0, owner[m := (i, p)], mbufferMax, m, Mbuffer(msg, false));
      owner := owner[m := (i, p)];
      TableRebound(s, i, p, m, Bound(a, p, m), nports, mbuffers, owner, mbufferMax);
      actives[i] := Bound(a, p, m);
      assert actives[..] == s[i := Bound(a, p, m)];
      r := 0;
    }

    /**
      * active_awrite.  An unused port gives -EINVAL.  The buffer step above
      * runs next; when it ends the call (a full pool, or a message kept for a
      * local reader) its result is returned.  Otherwise a busy channel gives
      * -EBUSY, a failed hardware write (`awriteRet`, what do_awrite returns)
      * gives that error, and a write that was set up leaves the channel busy.
      * A port that still has a buffer sends that buffer again.
      */
    method AWrite(id: int, config: CommConfig, copySrc: int, awriteRet: int) returns (r: int)
      requires Valid() && ValidId(id)
      modifies this`mbuffers, this`owner, actives
      ensures Valid()
      ensures var i := AddressFd(id, nports);
              var p := AddressPort(id, nports);
              var a := old(actives[i]);
              var bound := a.ports[p].mbufferid;
              var f := Allocated(old(mbuffers), mbufferMax);
              var msg := Message(config.remote, copySrc, config.payload);
              if !a.ports[p].res.used then
                r == -EINVAL && actives[..] == old(actives[..]) && mbuffers == old(mbuffers)
              else if bound < 0 && f < 0 then
                r == f && actives[..] == old(actives[..]) && mbuffers == old(mbuffers)
              else if bound < 0 && a.remote in localNodes then
                r == COMM_STATUS_RECEIVED && actives[..] == old(actives[..])
                && mbuffers == old(mbuffers)[f := Mbuffer(msg, true)]
              else
                var b := if bound < 0 then Bound(a, p, f) else a;
                mbuffers == (if bound < 0 then old(mbuffers)[f := Mbuffer(msg, false)] else old(mbuffers)) &&
                if a.res.busy then r == -EBUSY && actives[..] == old(actives[..])[i := b]
                else if awriteRet < 0 then r == awriteRet && actives[..] == old(actives[..])[i := b]
                else r == COMM_STATUS_SUCCESS && actives[..] == old(actives[..])[i := b.(res := a.res.(busy := true))]
    {
      var i := id / nports;
      var p := id % nports;
      assert i == AddressFd(id, nports) && p == AddressPort(id, nports);
      var a := actives[i];
      if !a.ports[p].res.used {
        return -EINVAL;
      }
      r := StageBuffer(i, p, config, copySrc);
      if r != 0 {
        return;
      }
      ghost var s := actives[..];
      var b := actives[i];
      assert b == s[i];
      if a.res.busy {
        return -EBUSY;
      }
      if awriteRet < 0 {
        return awriteRet;
      }
      var c := b.(res := a.res.(busy := true));
      TableRelabelled(s, i, c, nports, mbuffers, owner, mbufferMax);
      actives[i] := c;
      assert actives[..] == s[i := c];
      r := COMM_STATUS_SUCCESS;
    }

    /**
      * The outcome part of active_wait, for a busy channel `a` whose port `p`
      * holds a buffer: `waitRet` is what do_wait returns and `arrived` the
      * message the hardware left in the buffer.  A failed wait returns its
      * error; on a write channel the wait succeeds; on a read channel a
      * message for this port (and, when a remote was given, from it) is
      * handed over, and a message for another port gives COMM_STATUS_AGAIN
      * and is to be kept in the pool (`keep`) exactly when that port is used.
      * Nothing changes.
      */
    method Settle(a: Active, p: int, config: CommConfig, waitRet: int, arrived: Message)
      returns (r: int, delivered: Option<seq<int>>, keep: bool)
      requires nports >= 1 && |a.ports| == nports && arrived.dest >= 0
      ensures waitRet != 0 ==> r == waitRet && delivered == None && !keep
      ensures waitRet == 0 && !a.res.readable ==> r == COMM_STATUS_SUCCESS && delivered == None && !keep
      ensures waitRet == 0 && a.res.readable && Compose(a.local, p, nports) == arrived.dest
              && (config.remote == -1 || config.remote == arrived.src) ==>
                r == COMM_STATUS_SUCCESS && delivered == Some(arrived.payload) && !keep
      ensures waitRet == 0 && a.res.readable && !(Compose(a.local, p, nports) == arrived.dest
              && (config.remote == -1 || config.remote == arrived.src)) ==>
                r == COMM_STATUS_AGAIN && delivered == None && keep == a.ports[AddressPort(arrived.dest, nports)].res.used
    {
      r := waitRet;
      delivered := None;
      keep := false;
      if r == 0 {
        r := COMM_STATUS_SUCCESS;
        if a.res.readable {
          var localAddr := Compose(a.local, p, nports);
          if localAddr == arrived.dest && (config.remote == -1 || config.remote == arrived.src) {
            delivered := Some(arrived.payload);
          } else {
            assert arrived.dest % nports == AddressPort(arrived.dest, nports);
            keep := a.ports[arrived.dest % nports].res.used;
            r := COMM_STATUS_AGAIN;
          }
        }
      }
    }

    /**
      * active_wait.  An unused port, an idle channel or a port with no buffer
      * gives -EBADF.  Otherwise the outcome is settled as above; in every
      * case the port then loses its buffer and the channel becomes idle, and
      * the buffer is kept in the pool (holding `arrived`) or given back.
      */
    method Wait(id: int, config: CommConfig, waitRet: int, arrived: Message) returns (r: int, delivered: Option<seq<int>>)
      requires Valid() && ValidId(id)
      requires arrived.dest >= 0
      modifies this`mbuffers, actives
      ensures Valid()
      ensures var i := AddressFd(id, nports);
              var p := AddressPort(id, nports);
              var a := old(actives[i]);
              var m := a.ports[p].mbufferid;
              if !a.ports[p].res.used || !a.res.busy || m < 0 then
                r == -EBADF && delivered == None && actives[..] == old(actives[..]) && mbuffers == old(mbuffers)
              else
                actives[..] == old(actives[..])[i := Bound(a, p, -1).(res := a.res.(busy := false))] &&
                if waitRet != 0 then
                  r == waitRet && delivered == None && mbuffers == old(mbuffers) - {m}
                else if !a.res.readable then
                  r == COMM_STATUS_SUCCESS && delivered == None && mbuffers == old(mbuffers) - {m}
                else if Compose(a.local, p, nports) == arrived.dest && (config.remote == -1 || config.remote == arrived.src) then
                  r == COMM_STATUS_SUCCESS && delivered == Some(arrived.payload) && mbuffers == old(mbuffers) - {m}
                else
                  r == COMM_STATUS_AGAIN && delivered == None &&
                  mbuffers == if a.ports[AddressPort(arrived.dest, nports)].res.used
                              then old(mbuffers)[m := Mbuffer(arrived, true)]
                              else old(mbuffers) - {m}
    {
      ghost var s := actives[..];
      ghost var bufs0 := mbuffers;
      var i := id / nports;
      var p := id % nports;
      assert i == AddressFd(id, nports) && p == AddressPort(id, nports);
      var a := actives[i];
      assert a == s[i];

      if !a.ports[p].res.used {
        return -EBADF, None;
      }
      if !a.res.busy {
        return -EBADF, None;
      }
      var m := a.ports[p].mbufferid;
      if m < 0 {
        return -EBADF, None;
      }
      assert BindingOk(bufs0, owner, i, p, m);

      var keep;
      r, delivered, keep := Settle(a, p, config, waitRet, arrived);

      var c := Bound(a, p, -1).(res := a.res.(busy := false));
      TableRebound(s, i, p, -1, c, nports, bufs0, owner, mbufferMax);
      actives[i] := c;
      assert actives[..] == s[i := c];
      if keep {
        mbuffers := mbuffers[m := Mbuffer(arrived, true)];
      } else {
        mbuffers := mbuffers - {m};
      }
      TableForgets(s[i := c], nports, bufs0, owner, mbufferMax, m, i, p, mbuffers);
    }

    /** _active_alloc: the lowest unused slot gets fresh flags and is marked used, or -1. */
    method AllocActive() returns (i: int)
      modifies actives
      ensures i == FirstIndex(old(actives[..]), ActiveFree)
      ensures i < 0 ==> actives[..] == old(actives[..])
      ensures i >= 0 ==> actives[..] == old(actives[..])[i := old(actives[i]).(res := Initializer.(used := true))]
    {
      i := 0;
      while i < actives.Length
        invariant 0 <= i <= actives.Length
        invariant forall j :: 0 <= j < i ==> !ActiveFree(actives[j])
      {
        if !actives[i].res.used {
          assert FirstIndex(actives[..], ActiveFree) == i;
          actives[i] := actives[i].(res := Initializer.(used := true));
          return;
        }
        i := i + 1;
      }
      assert FirstIndex(actives[..], ActiveFree) == -1;
      i := -1;
    }

    /** _active_free: the slot is marked unused. */
    method FreeActive(i: int)
      requires 0 <= i < actives.Length
      modifies actives
      ensures actives[..] == old(actives[..])[i := old(actives[i]).(res := old(actives[i]).res.(used := false))]
    {
      actives[i] := actives[i].(res := actives[i].res.(used := false));
    }

    /**
      * active_create: -EBUSY when an input channel for `local` exists,
      * -EAGAIN when the table is full, do_create's error (`createRet`) after
      * giving the slot back; otherwise the new read-only channel's index.
      */
    method Create(local: int, createRet: int) returns (r: int)
      requires Valid()
      modifies actives
      ensures Valid()
      ensures FirstIndex(old(actives[..]), Fits(local, -1, CommInput)) >= 0 ==>
                r == -EBUSY && actives[..] == old(actives[..])
      ensures FirstIndex(old(actives[..]), Fits(local, -1, CommInput)) < 0 ==>
                var f := FirstIndex(old(actives[..]), ActiveFree);
                if f < 0 then r == -EAGAIN && actives[..] == old(actives[..])
                else if createRet < 0 then
                  r == createRet && actives[..] == old(actives[..])[f := old(actives[f]).(res := Initializer)]
                else
                  r == f && actives[..] == old(actives[..])[f := Initialised(old(actives[f]), CommInput, createRet, local, -1)]
      ensures r >= 0 ==> r == FirstIndex(actives[..], Fits(local, -1, CommInput))
    {
      ghost var s := actives[..];
      var actid := Search(local, -1, CommInput);
      if actid >= 0 {
        return -EBUSY;
      }
      var i := AllocActive();
      if i < 0 {
        return -EAGAIN;
      }
      ghost var a := s[i];
      if createRet < 0 {
        FreeActive(i);
        ghost var c := a.(res := Initializer);
        assert actives[..] == s[i := c];
        TableRelabelled(s, i, c, nports, mbuffers, owner, mbufferMax);
        return createRet;
      }
      var c := Initialised(actives[i], CommInput, createRet, local, -1);
      assert c == Initialised(a, CommInput, createRet, local, -1);
      actives[i] := c;
      assert actives[..] == s[i := c];
      TableRelabelled(s, i, c, nports, mbuffers, owner, mbufferMax);
      OnlyHitIsFound(s, i, c, local, -1, CommInput);
      r := i;
    }

    /**
      * active_open: an existing output channel for (local, remote) is
      * returned as it is.  Otherwise a slot is taken (-EAGAIN when none is
      * left).  A local node talking to a remote one opens the hardware
      * (`openRet`; its error gives the slot back); a `local` that is not a
      * local node gives -EINVAL, and the slot taken stays used; two local
      * nodes get a channel with no hardware descriptor (-EINVAL as hwfd).
      */
    method Open(local: int, remote: int, openRet: int) returns (r: int)
      requires Valid()
      modifies actives
      ensures Valid()
      ensures FirstIndex(old(actives[..]), Fits(local, remote, CommOutput)) >= 0 ==>
                r == FirstIndex(old(actives[..]), Fits(local, remote, CommOutput)) && actives[..] == old(actives[..])
      ensures FirstIndex(old(actives[..]), Fits(local, remote, CommOutput)) < 0 ==>
                var f := FirstIndex(old(actives[..]), ActiveFree);
                if f < 0 then r == -EAGAIN && actives[..] == old(actives[..])
                else if local in localNodes && remote !in localNodes then
                  if openRet < 0 then
                    r == openRet && actives[..] == old(actives[..])[f := old(actives[f]).(res := Initializer)]
                  else
                    r == f && actives[..] == old(actives[..])[f := Initialised(old(actives[f]), CommOutput, openRet, local, remote)]
                else if local !in localNodes then
                  r == -EINVAL && actives[..] == old(actives[..])[f := old(actives[f]).(res := Initializer.(used := true))]
                else
                  r == f && actives[..] == old(actives[..])[f := Initialised(old(actives[f]), CommOutput, -EINVAL, local, remote)]
      ensures r >= 0 ==> r == FirstIndex(actives[..], Fits(local, remote, CommOutput))
    {
      ghost var s := actives[..];
      var actid := Search(local, remote, CommOutput);
      if actid >= 0 {
        return actid;
      }
      var i := AllocActive();
      if i < 0 {
        return -EAGAIN;
      }
      ghost var a := s[i];
      var hwfd := -EINVAL;
      if local in localNodes && remote !in localNodes {
        if openRet < 0 {
          FreeActive(i);
          ghost var c := a.(res := Initializer);
          assert actives[..] == s[i := c];
          TableRelabelled(s, i, c, nports, mbuffers, owner, mbufferMax);
          return openRet;
        }
        hwfd := openRet;
      } else if local !in localNodes {
        // The slot taken above is not given back.
        ghost var c := a.(res := Initializer.(used := true));
        TableRelabelled(s, i, c, nports, mbuffers, owner, mbufferMax);
        return -EINVAL;
      }
      var c := Initialised(actives[i], CommOutput, hwfd, local, remote);
      assert c == Initialised(a, CommOutput, hwfd, local, remote);
      actives[i] := c;
      assert actives[..] == s[i := c];
      TableRelabelled(s, i, c, nports, mbuffers, owner, mbufferMax);
      OnlyHitIsFound(s, i, c, local, remote, CommOutput);
      r := i;
    }

    /** A second active_create for the same node, after one that succeeded, is refused with -EBUSY. */
    method CreateTwice(local: int, createRet1: int, createRet2: int) returns (r1: int, r2: int)
      requires Valid()
      modifies actives
      ensures Valid()
      ensures r1 >= 0 ==> r2 == -EBUSY && r1 < actives.Length && actives[r1].res.readable && actives[r1].local == local
    {
      r1 := Create(local, createRet1);
      r2 := Create(local, createRet2);
    }

    /** A second active_open for the same pair, after one that succeeded, returns the same channel and changes nothing. */
    method OpenTwice(local: int, remote: int, openRet1: int, openRet2: int) returns (r1: int, r2: int)
      requires Valid()
      modifies actives
      ensures Valid()
      ensures r1 >= 0 ==> r2 == r1 && r1 < actives.Length && actives[r1].res.writable && actives[r1].local == local && actives[r1].remote == remote
    {
      r1 := Open(local, remote, openRet1);
      ghost var s := actives[..];
      r2 := Open(local, remote, openRet2);
      assert r1 >= 0 ==> actives[..] == s;
    }
  }
}
