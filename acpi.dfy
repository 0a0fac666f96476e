/**
  * ACPI table validation and lookup over a byte image of physical memory.
  * Addresses are indices into the image.  The target is 32-bit x86, so
  * `size_t` arithmetic wraps modulo 2^32.
  */
module Acpi {
  import opened Bytes
  import opened Slots
  import opened Errno

  /** Size of the ACPI 1.0 RSDP structure (section 5.2.5.3 of the ACPI Specification). */
  const RSDP_SIZE: nat := 20
  /** Offset of the revision byte in the RSDP. */
  const RSDP_REVISION: nat := 15
  /** Offset of the 32-bit RSDT address in the RSDP. */
  const RSDP_RSDT_ADDRESS: nat := 16
  /** Size of a System Description Table header (section 5.2.6 of the ACPI Specification). */
  const SDT_HEADER_SIZE: nat := 36
  /** Offset of the 32-bit length field in an SDT header. */
  const SDT_LENGTH: nat := 4
  /** Signature of the Multiple APIC Description Table (section 5.2.12): "APIC". */
  const APIC_SIGNATURE: seq<byte> := [0x41, 0x50, 0x49, 0x43]

  /*------------------------------------------------------------------------*
   * Checksum                                                               *
   *------------------------------------------------------------------------*/

  /** The sum of the bytes, without wrap-around. */
  function ByteSum(s: seq<byte>): nat
  {
    if s == [] then 0 else ByteSum(s[..|s| - 1]) + s[|s| - 1] as nat
  }

  /** The ACPI checksum rule: all bytes of the structure add up to zero modulo 256. */
  predicate ChecksumValid(s: seq<byte>)
  {
    ByteSum(s) % 256 == 0
  }

  /**
    * do_checksum: adds the `len` bytes at `start` in a `char` accumulator
    * (which wraps modulo 256) and reports whether the sum is zero.
    */
  method DoChecksum(mem: seq<byte>, start: nat, len: nat) returns (ok: bool)
    requires start + len <= |mem|
    ensures ok <==> ChecksumValid(mem[start..start + len])
    ensures len == 0 ==> ok
  {
    var sum: byte := 0;
    var i := 0;
    while i < len
      invariant i <= len
      invariant sum as nat == ByteSum(mem[start..start + i]) % 256
    {
      assert mem[start..start + i + 1][..i] == mem[start..start + i];
      ByteSumStep(mem[start..start + i + 1], sum);
      sum := ((sum as int + mem[start + i] as int) % 256) as byte;
      i := i + 1;
    }
    ok := sum == 0;
  }

  /** Adding the last byte to the wrapped sum of the others gives the wrapped sum of all. */
  lemma ByteSumStep(s: seq<byte>, acc: byte)
    requires s != [] && acc as nat == ByteSum(s[..|s| - 1]) % 256
    ensures (acc as nat + s[|s| - 1] as nat) % 256 == ByteSum(s) % 256
  {
    var rest := ByteSum(s[..|s| - 1]);
    assert rest == 256 * (rest / 256) + acc as nat;
  }

  /** Changing one byte changes the sum by the difference of the two bytes. */
  lemma {:induction false} ByteSumUpdate(s: seq<byte>, k: nat, x: byte)
    requires k < |s|
    ensures ByteSum(s[k := x]) == ByteSum(s) - s[k] as nat + x as nat
  {
    var n := |s|;
    if k == n - 1 {
      assert s[k := x][..n - 1] == s[..n - 1];
    } else {
      ByteSumUpdate(s[..n - 1], k, x);
      assert s[k := x][..n - 1] == s[..n - 1][k := x];
    }
  }

  /** The value the checksum byte at offset `k` must hold: 256 minus the sum of the other bytes, modulo 256. */
  function ChecksumByte(s: seq<byte>, k: nat): byte
    requires k < |s|
  {
    var others := ByteSum(s) - s[k] as nat;
    ((256 - others % 256) % 256) as byte
  }

  /**
    * The checksum byte of a table can always be chosen so that the table is
    * valid: storing ChecksumByte at the checksum offset makes the rule hold.
    */
  lemma ChecksumByteMakesValid(s: seq<byte>, k: nat)
    requires k < |s|
    ensures ChecksumValid(s[k := ChecksumByte(s, k)])
  {
    var others := ByteSum(s) - s[k] as nat;
    var c := ChecksumByte(s, k);
    ByteSumUpdate(s, k, c);
    var m := others % 256;
    var q := others / 256;
    assert others == 256 * q + m;
    assert c as nat == (256 - m) % 256;
    if m == 0 {
      assert ByteSum(s[k := c]) == 256 * q;
    } else {
      assert ByteSum(s[k := c]) == 256 * (q + 1);
    }
  }

  /*------------------------------------------------------------------------*
   * Signature comparison                                                   *
   *------------------------------------------------------------------------*/

  /**
    * `__strncmp(a, b, n) == 0`: the two strings agree on their first `n`
    * characters, or up to a NUL character they share.
    */
  function StrnEqual(a: seq<byte>, b: seq<byte>, n: nat): bool
    requires n <= |a| && n <= |b|
  {
    if n == 0 then true
    else if a[0] != b[0] then false
    else if a[0] == 0 then true
    else StrnEqual(a[1..], b[1..], n - 1)
  }

  /** With a signature that holds no NUL, the bounded comparison is plain equality. */
  lemma {:induction false} StrnEqualWithoutNul(a: seq<byte>, b: seq<byte>, n: nat)
    requires n <= |a| && n <= |b|
    requires forall i :: 0 <= i < n ==> b[i] != 0
    ensures StrnEqual(a, b, n) <==> a[..n] == b[..n]
  {
    if n > 0 {
      StrnEqualWithoutNul(a[1..], b[1..], n - 1);
      assert a[..n] == [a[0]] + a[1..][..n - 1];
      assert b[..n] == [b[0]] + b[1..][..n - 1];
    }
  }

  /*------------------------------------------------------------------------*
   * RSDT scan                                                              *
   *------------------------------------------------------------------------*/

  /**
    * Number of RSDT entries, `(length - sizeof(header)) / 4`, computed as the
    * source does with 32-bit unsigned `size_t`: a length shorter than the
    * header wraps around to about 2^30 entries.
    */
  function EntryCount(length: nat): (n: nat)
    requires length < 0x1_0000_0000
    ensures SDT_HEADER_SIZE <= length ==> n * 4 + SDT_HEADER_SIZE <= length < n * 4 + SDT_HEADER_SIZE + 4
    ensures length < SDT_HEADER_SIZE ==> n >= 0x3FFF_FFF7
  {
    ((length - SDT_HEADER_SIZE) % 0x1_0000_0000) / 4
  }

  /** Length field of the SDT header at `h`. */
  function TableLength(mem: seq<byte>, h: nat): nat
    requires h + 8 <= |mem|
  {
    U32At(mem, h + SDT_LENGTH)
  }

  /** Number of entries of the RSDT at `rsdt`. */
  function RsdtEntries(mem: seq<byte>, rsdt: nat): nat
    requires rsdt + 8 <= |mem|
  {
    EntryCount(TableLength(mem, rsdt))
  }

  /** Address held by entry `i` of the RSDT at `rsdt`. */
  function EntryAddress(mem: seq<byte>, rsdt: nat, i: nat): nat
    requires rsdt + SDT_HEADER_SIZE + 4 * i + 4 <= |mem|
  {
    U32At(mem, rsdt + SDT_HEADER_SIZE + 4 * i)
  }

  /**
    * The RSDT at `rsdt`, its entry array and every table it lists lie inside
    * the image: what the scan reads must exist.
    */
  predicate RsdtInImage(mem: seq<byte>, rsdt: nat)
  {
    rsdt + 8 <= |mem|
    && rsdt + SDT_HEADER_SIZE + 4 * RsdtEntries(mem, rsdt) <= |mem|
    && forall i :: 0 <= i < RsdtEntries(mem, rsdt) ==>
         EntryAddress(mem, rsdt, i) + 8 <= |mem|
         && EntryAddress(mem, rsdt, i) + TableLength(mem, EntryAddress(mem, rsdt, i)) <= |mem|
  }

  /** The four signature bytes of the table at `h`. */
  function Signature(mem: seq<byte>, h: nat): seq<byte>
    requires h + 8 <= |mem|
  {
    mem[h..h + 4]
  }

  /** The whole table at `h`, as long as its header says. */
  function Table(mem: seq<byte>, h: nat): seq<byte>
    requires h + 8 <= |mem| && h + TableLength(mem, h) <= |mem|
  {
    mem[h..h + TableLength(mem, h)]
  }

  /**
    * Entry `i` is accepted: it lies inside the image, its signature compares
    * equal to `sig` and its checksum is valid.
    */
  predicate Hit(mem: seq<byte>, rsdt: nat, sig: seq<byte>, i: nat)
    requires |sig| == 4
  {
    rsdt + 8 <= |mem| && i < RsdtEntries(mem, rsdt) && rsdt + SDT_HEADER_SIZE + 4 * i + 4 <= |mem|
    && var h := EntryAddress(mem, rsdt, i);
       h + 8 <= |mem| && h + TableLength(mem, h) <= |mem|
       && StrnEqual(Signature(mem, h), sig, 4) && ChecksumValid(Table(mem, h))
  }

  /** The first accepted entry at index `i` or later, or -1. */
  function FirstHitFrom(mem: seq<byte>, rsdt: nat, sig: seq<byte>, i: nat): (r: int)
    requires rsdt + 8 <= |mem| && |sig| == 4 && i <= RsdtEntries(mem, rsdt)
    ensures r == -1 || i <= r < RsdtEntries(mem, rsdt)
    ensures r == -1 <==> forall j :: i <= j < RsdtEntries(mem, rsdt) ==> !Hit(mem, rsdt, sig, j)
    ensures r >= 0 ==> Hit(mem, rsdt, sig, r) && forall j :: i <= j < r ==> !Hit(mem, rsdt, sig, j)
    decreases RsdtEntries(mem, rsdt) - i
  {
    if i == RsdtEntries(mem, rsdt) then -1
    else if Hit(mem, rsdt, sig, i) then i
    else FirstHitFrom(mem, rsdt, sig, i + 1)
  }

  /** The table find_table_by_sig returns: the first accepted entry's address, or NULL. */
  function FoundTable(mem: seq<byte>, rsdt: nat, sig: seq<byte>): (r: Option<nat>)
    requires rsdt + 8 <= |mem| && |sig| == 4
    ensures r.Some? ==> r.value + 8 <= |mem| && r.value + TableLength(mem, r.value) <= |mem|
                        && StrnEqual(Signature(mem, r.value), sig, 4)
                        && ChecksumValid(Table(mem, r.value))
    ensures r.None? <==> forall i :: 0 <= i < RsdtEntries(mem, rsdt) ==> !Hit(mem, rsdt, sig, i)
  {
    var k := FirstHitFrom(mem, rsdt, sig, 0);
    if k < 0 then None else Some(EntryAddress(mem, rsdt, k))
  }

  /**
    * A table whose signature matches but whose checksum is wrong is skipped:
    * the search goes on with the next entry rather than failing.
    */
  lemma BadChecksumIsSkipped(mem: seq<byte>, rsdt: nat, sig: seq<byte>, i: nat)
    requires RsdtInImage(mem, rsdt) && |sig| == 4 && i < RsdtEntries(mem, rsdt)
    requires !ChecksumValid(Table(mem, EntryAddress(mem, rsdt, i)))
    ensures FirstHitFrom(mem, rsdt, sig, i) == FirstHitFrom(mem, rsdt, sig, i + 1)
  {
  }

  /** One step of the scan: compares the signature of entry `i`, then validates its checksum. */
  method AcceptEntry(mem: seq<byte>, rsdt: nat, sig: seq<byte>, i: nat) returns (accepted: bool)
    requires RsdtInImage(mem, rsdt) && |sig| == 4 && i < RsdtEntries(mem, rsdt)
    ensures accepted == Hit(mem, rsdt, sig, i)
  {
    var h := EntryAddress(mem, rsdt, i);
    accepted := false;
    if StrnEqual(Signature(mem, h), sig, 4) {
      accepted := DoChecksum(mem, h, TableLength(mem, h));
    }
  }

  /**
    * find_table_by_sig: scans the RSDT entries in order and returns the
    * first table whose signature is `sig` and whose checksum is valid.
    */
  method FindTableBySig(mem: seq<byte>, rsdt: nat, sig: seq<byte>) returns (found: Option<nat>)
    requires RsdtInImage(mem, rsdt) && |sig| == 4
    ensures found == FoundTable(mem, rsdt, sig)
  {
    var entries := RsdtEntries(mem, rsdt);
    var i := 0;
    while i < entries
      invariant i <= entries
      invariant forall j :: 0 <= j < i ==> !Hit(mem, rsdt, sig, j)
    {
      var accepted := AcceptEntry(mem, rsdt, sig, i);
      if accepted {
        assert FirstHitFrom(mem, rsdt, sig, 0) == i;
        return Some(EntryAddress(mem, rsdt, i));
      }
      i := i + 1;
    }
    assert FirstHitFrom(mem, rsdt, sig, 0) == -1;
    return None;
  }

  /*------------------------------------------------------------------------*
   * acpi_info_parse                                                        *
   *------------------------------------------------------------------------*/

  /** Outcome of acpi_info_parse: returns zero with the MADT handed on, returns an error, or panics. */
  datatype ParseOutcome = Parsed(madt: nat) | Failed(code: int) | Panic

  /** The RSDP at `info`. */
  function Rsdp(mem: seq<byte>, info: nat): seq<byte>
    requires info + RSDP_SIZE <= |mem|
  {
    mem[info..info + RSDP_SIZE]
  }

  /** RSDT address held by the RSDP at `info`. */
  function RsdtAddress(mem: seq<byte>, info: nat): nat
    requires info + RSDP_SIZE <= |mem|
  {
    U32At(mem, info + RSDP_RSDT_ADDRESS)
  }

  /**
    * Everything acpi_info_parse reads lies inside the image, along each path
    * the checks let it take.
    */
  predicate AcpiInImage(mem: seq<byte>, info: nat)
  {
    info + RSDP_SIZE <= |mem|
    && (ChecksumValid(Rsdp(mem, info)) && mem[info + RSDP_REVISION] == 0 ==>
          var rsdt := RsdtAddress(mem, info);
          rsdt + 8 <= |mem| && rsdt + TableLength(mem, rsdt) <= |mem|
          && (ChecksumValid(Table(mem, rsdt)) ==> RsdtInImage(mem, rsdt)))
  }

  /**
    * acpi_info_parse: validates the RSDP checksum, then the revision (only
    * ACPI 1.0 is supported), then the RSDT checksum, and then looks the MADT
    * up; every failed check returns -EINVAL, a missing MADT panics.
    */
  function AcpiInfoParse(mem: seq<byte>, info: nat): (r: ParseOutcome)
    requires AcpiInImage(mem, info)
    ensures r.Failed? ==> r.code == -EINVAL
  {
    if !ChecksumValid(Rsdp(mem, info)) then Failed(-EINVAL)
    else if mem[info + RSDP_REVISION] != 0 then Failed(-EINVAL)
    else
      var rsdt := RsdtAddress(mem, info);
      if !ChecksumValid(Table(mem, rsdt)) then Failed(-EINVAL)
      else
        match FoundTable(mem, rsdt, APIC_SIGNATURE)
        case None => Panic
        case Some(madt) => Parsed(madt)
  }

  /** The three checks fail the parse, and only they do. */
  lemma AcpiInfoParseFailsOnlyOnBadTables(mem: seq<byte>, info: nat)
    requires AcpiInImage(mem, info)
    ensures AcpiInfoParse(mem, info).Failed? <==>
              !ChecksumValid(Rsdp(mem, info)) || mem[info + RSDP_REVISION] != 0
              || !ChecksumValid(Table(mem, RsdtAddress(mem, info)))
  {
  }

  /** A successful parse hands on a table whose signature is "APIC" and whose checksum is valid. */
  lemma AcpiInfoParseFindsMadt(mem: seq<byte>, info: nat)
    requires AcpiInImage(mem, info) && AcpiInfoParse(mem, info).Parsed?
    ensures var madt := AcpiInfoParse(mem, info).madt;
            madt + 8 <= |mem| && madt + TableLength(mem, madt) <= |mem|
            && Signature(mem, madt) == APIC_SIGNATURE && ChecksumValid(Table(mem, madt))
  {
    var madt := AcpiInfoParse(mem, info).madt;
    StrnEqualWithoutNul(Signature(mem, madt), APIC_SIGNATURE, 4);
  }

  /** The parse panics only when all checks pass and no RSDT entry is an acceptable MADT. */
  lemma AcpiInfoParsePanicsWithoutMadt(mem: seq<byte>, info: nat)
    requires AcpiInImage(mem, info) && AcpiInfoParse(mem, info).Panic?
    ensures ChecksumValid(Rsdp(mem, info)) && mem[info + RSDP_REVISION] == 0
    ensures var rsdt := RsdtAddress(mem, info);
            rsdt + 8 <= |mem| && ChecksumValid(Table(mem, rsdt))
            && forall i :: 0 <= i < RsdtEntries(mem, rsdt) ==> !Hit(mem, rsdt, APIC_SIGNATURE, i)
  {
  }
}
