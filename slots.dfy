/**
  * Pieces shared by every fixed-size kernel table: the per-slot resource flags
  * of the resource pool, the "lowest index that satisfies a condition" search
  * that every table scan performs, and counting.
  */
module Slots {

  datatype Option<T> = None | Some(value: T)

  /** Flags the resource pool keeps for each slot. */
  datatype Resource = Resource(used: bool, busy: bool, readable: bool, writable: bool)

  /** RESOURCE_INITIALIZER: every flag cleared. */
  const Initializer: Resource := Resource(false, false, false, false)

  /** resource_set_rdonly: readable and not writable. */
  function SetRdonly(r: Resource): Resource { r.(readable := true, writable := false) }

  /** resource_set_wronly: writable and not readable. */
  function SetWronly(r: Resource): Resource { r.(readable := false, writable := true) }

  /**
    * The lowest index of `s` whose element satisfies `p`, or -1 when there is
    * none.  This is what a `for` scan with an early return computes.
    */
  function FirstIndex<T>(s: seq<T>, p: T -> bool): (r: int)
    ensures -1 <= r < |s|
    ensures r == -1 <==> forall i :: 0 <= i < |s| ==> !p(s[i])
    ensures 0 <= r ==> p(s[r]) && forall i :: 0 <= i < r ==> !p(s[i])
  {
    if s == [] then -1
    else if p(s[0]) then 0
    else
      var k := FirstIndex(s[1..], p);
      if k < 0 then -1 else k + 1
  }

  /** FirstIndex does not look past the first hit: appending changes nothing once a hit exists. */
  lemma {:induction false} FirstIndexPrefix<T>(s: seq<T>, t: seq<T>, p: T -> bool)
    requires FirstIndex(s, p) >= 0
    ensures FirstIndex(s + t, p) == FirstIndex(s, p)
  {
    var k := FirstIndex(s, p);
    assert (s + t)[k] == s[k];
    forall i | 0 <= i < k ensures !p((s + t)[i]) {
      assert (s + t)[i] == s[i];
    }
  }

  /** Number of elements of `s` that satisfy `p`. */
  function CountWhere<T>(s: seq<T>, p: T -> bool): (n: nat)
    ensures n <= |s|
    ensures n == 0 <==> forall i :: 0 <= i < |s| ==> !p(s[i])
    ensures n == |s| <==> forall i :: 0 <= i < |s| ==> p(s[i])
  {
    if s == [] then 0
    else (if p(s[0]) then 1 else 0) + CountWhere(s[1..], p)
  }

  /** Replacing one element changes the count by what the two elements contribute. */
  lemma {:induction false} CountWhereUpdate<T>(s: seq<T>, i: nat, x: T, p: T -> bool)
    requires i < |s|
    ensures CountWhere(s[i := x], p)
         == CountWhere(s, p) - (if p(s[i]) then 1 else 0) + (if p(x) then 1 else 0)
  {
    if i == 0 {
      assert s[i := x][1..] == s[1..];
    } else {
      CountWhereUpdate(s[1..], i - 1, x, p);
      assert s[i := x][1..] == s[1..][i - 1 := x];
    }
  }
}

/** Bytes and little-endian fields of a byte image. */
module Bytes {
  newtype byte = x: int | 0 <= x < 256

  /** The unsigned 32-bit little-endian value stored at `mem[at..at + 4]`. */
  function U32At(mem: seq<byte>, at: nat): (v: nat)
    requires at + 4 <= |mem|
    ensures v < 0x1_0000_0000
  {
    mem[at] as nat + 0x100 * mem[at + 1] as nat + 0x1_0000 * mem[at + 2] as nat
      + 0x100_0000 * mem[at + 3] as nat
  }
}
