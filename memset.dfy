/** The byte-fill primitive of the core library. */
module Memset {
  import opened Bytes

  /**
    * The conversion of an `int` to `unsigned char`: the one byte value that is
    * congruent to `c` modulo 256 (for negative `c` as well).
    */
  function ToUnsignedChar(c: int): (b: byte)
    ensures (b as int - c) % 256 == 0
    ensures 0 <= c < 256 ==> b as int == c
  {
    (c % 256) as byte
  }

  /**
    * __memset(s, c, n): writes `c`, converted to unsigned char, into each of
    * the first `n` bytes of `s` and returns `s`.  The caller guarantees that
    * the buffer holds at least `n` bytes.
    */
  method Memset(s: array<byte>, c: int, n: nat) returns (r: array<byte>)
    requires n <= s.Length
    modifies s
    ensures r == s
    ensures forall i :: 0 <= i < n ==> s[i] == ToUnsignedChar(c)
    ensures forall i :: n <= i < s.Length ==> s[i] == old(s[i])
  {
    var p := 0;
    var left := n;
    while left > 0
      invariant p + left == n && p <= n
      invariant forall i :: 0 <= i < p ==> s[i] == ToUnsignedChar(c)
      invariant forall i :: p <= i < s.Length ==> s[i] == old(s[i])
    {
      s[p] := ToUnsignedChar(c);
      p := p + 1;
      left := left - 1;
    }
    r := s;
  }
}
