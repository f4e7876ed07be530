/**
 * The ACPI table directory: the root table (XSDT, or RSDT when its
 * signature does not start with 'X') lists the physical addresses of the
 * other tables; those whose checksum holds (section 5.2.6 of the ACPI
 * specification) are collected in root-table order and looked up by their
 * four-character signature.
 */
module Acpi {
  import opened Machine

  /** `sizeof(ACPI::Table)`: the common header every table starts with. */
  const HeaderSize: nat := 36
  /** Offsets of the header's `length` and `checksum` fields. */
  const LengthOffset: nat := 4
  const ChecksumOffset: nat := 9

  /** The header at `t` lies in memory. */
  predicate HeaderIn(m: Bytes, t: nat)
  {
    t + HeaderSize <= |m|
  }

  /** The header's `length`: the size of the whole table in bytes. */
  function TableLength(m: Bytes, t: nat): nat
    requires HeaderIn(m, t)
  {
    LoadLE(m, t + LengthOffset, 4)
  }

  /** The whole table at `t` lies in memory. */
  predicate TableIn(m: Bytes, t: nat)
  {
    HeaderIn(m, t) && t + TableLength(m, t) <= |m|
  }

  /** The sum of the `n` bytes at `from`. */
  function ByteSum(m: Bytes, from: nat, n: nat): nat
    requires from + n <= |m|
    decreases n
  {
    if n == 0 then 0 else ByteSum(m, from, n - 1) + m[from + n - 1]
  }

  /** The checksum rule: all bytes of the table add up to 0 modulo 256. */
  predicate Checksummed(m: Bytes, t: nat)
    requires TableIn(m, t)
  {
    ByteSum(m, t, TableLength(m, t)) % 0x100 == 0
  }

  /** `validate`: the byte sum of the table, compared on its low byte. */
  method Validate(m: Bytes, t: nat) returns (ok: bool)
    requires TableIn(m, t)
    ensures ok <==> Checksummed(m, t)
  {
    var length := LoadLE(m, t + LengthOffset, 4);
    var value: nat := 0;
    var i := 0;
    while i < length
      invariant i <= length
      invariant value == ByteSum(m, t, i)
    {
      value := value + m[t + i];
      i := i + 1;
    }
    ok := value % 0x100 == 0;
  }

  /* ---------------------------------------------------------------------- */
  /* The checksum byte                                                      */
  /* ---------------------------------------------------------------------- */

  /** Changing one byte inside the summed range changes the sum by the difference. */
  lemma {:induction false} ByteSumUpdate(m: Bytes, from: nat, n: nat, k: nat, b: Byte)
    requires from <= k < from + n <= |m|
    ensures ByteSum(m[k := b], from, n) == ByteSum(m, from, n) - m[k] + b
    decreases n
  {
    if k < from + n - 1 {
      ByteSumUpdate(m, from, n - 1, k, b);
    } else {
      ByteSumUnchanged(m, from, n - 1, k, b);
    }
  }

  /** Changing a byte after the summed range leaves the sum alone. */
  lemma {:induction false} ByteSumUnchanged(m: Bytes, from: nat, n: nat, k: nat, b: Byte)
    requires from + n <= k < |m|
    ensures ByteSum(m[k := b], from, n) == ByteSum(m, from, n)
    decreases n
  {
    if n > 0 {
      ByteSumUnchanged(m, from, n - 1, k, b);
    }
  }

  /** The checksum byte that makes the table sum to zero, whatever its other bytes. */
  function ChecksumFor(m: Bytes, t: nat): Byte
    requires TableIn(m, t) && TableLength(m, t) > ChecksumOffset
  {
    (0x100 - ByteSum(m[t + ChecksumOffset := 0], t, TableLength(m, t)) % 0x100) % 0x100
  }

  /** Exactly one value of the checksum byte makes a table valid. */
  lemma ChecksumDetermined(m: Bytes, t: nat, c: Byte)
    requires TableIn(m, t) && TableLength(m, t) > ChecksumOffset
    ensures TableIn(m[t + ChecksumOffset := c], t)
    ensures Checksummed(m[t + ChecksumOffset := c], t) <==> c == ChecksumFor(m, t)
  {
    var m' := m[t + ChecksumOffset := c];
    var n := TableLength(m, t);
    LoadLEFrame(m, t + LengthOffset, 4, t + ChecksumOffset, c);
    assert TableLength(m', t) == n;
    ByteSumUpdate(m, t, n, t + ChecksumOffset, c);
    ByteSumUpdate(m, t, n, t + ChecksumOffset, 0);
    var rest := ByteSum(m[t + ChecksumOffset := 0], t, n);
    assert ByteSum(m', t, n) == rest + c;
    ModuloComplement(rest, c);
  }

  /** `rest + c` is a multiple of 256 exactly for the one byte that complements `rest`. */
  lemma ModuloComplement(rest: nat, c: Byte)
    ensures (rest + c) % 0x100 == 0 <==> c == (0x100 - rest % 0x100) % 0x100
  {
    var q := rest / 0x100;
    var r := rest % 0x100;
    assert rest + c == q * 0x100 + (r + c);
    assert (rest + c) % 0x100 == (r + c) % 0x100;
  }

  /* ---------------------------------------------------------------------- */
  /* The root table's entries                                               */
  /* ---------------------------------------------------------------------- */

  /** 64-bit entries in an XSDT (signature starting with 'X'), 32-bit ones in an RSDT. */
  function EntryWidth(m: Bytes, root: nat): (w: nat)
    requires HeaderIn(m, root)
    ensures w == 4 || w == 8
  {
    if m[root] == 'X' as int then 8 else 4
  }

  /** `(length - sizeof(Table)) / entrySize`, the subtraction in 64 bits. */
  function EntryCount(m: Bytes, root: nat): nat
    requires HeaderIn(m, root)
  {
    WrapU64(TableLength(m, root) - HeaderSize) / EntryWidth(m, root)
  }

  /** The entry array lies in memory. */
  predicate EntriesIn(m: Bytes, root: nat)
  {
    HeaderIn(m, root) && root + HeaderSize + EntryCount(m, root) * EntryWidth(m, root) <= |m|
  }

  /** The physical address held in entry `i`. */
  function Entry(m: Bytes, root: nat, i: nat): nat
    requires EntriesIn(m, root) && i < EntryCount(m, root)
  {
    var w := EntryWidth(m, root);
    assert root + HeaderSize + i * w + w <= root + HeaderSize + EntryCount(m, root) * w by {
      MultiplyMonotone(i + 1, EntryCount(m, root), w);
    }
    LoadLE(m, root + HeaderSize + i * w, w)
  }

  lemma MultiplyMonotone(a: nat, b: nat, w: nat)
    requires a <= b
    ensures a * w <= b * w
  {
  }

  /** The entries fill the table after its header, up to less than one entry. */
  lemma EntriesWithinTable(m: Bytes, root: nat)
    requires HeaderIn(m, root) && TableLength(m, root) >= HeaderSize
    ensures HeaderSize + EntryCount(m, root) * EntryWidth(m, root) <= TableLength(m, root)
    ensures TableLength(m, root) < HeaderSize + (EntryCount(m, root) + 1) * EntryWidth(m, root)
  {
    var n := TableLength(m, root) - HeaderSize;
    assert WrapU64(n) == n by {
      assert n <= LoadLE(m, root + LengthOffset, 4);
      LoadLEBound(m, root + LengthOffset, 4);
    }
  }

  /** A four-byte load is a 32-bit value. */
  lemma LoadLEBound(m: Bytes, at: nat, width: nat)
    requires at + width <= |m| && width == 4
    ensures IsU32(LoadLE(m, at, width))
  {
    assert LoadLE(m, at + 3, 1) == m[at + 3];
  }

  /** The addresses held in the first `n` entries, in order. */
  function Entries(m: Bytes, root: nat, n: nat): (es: seq<nat>)
    requires EntriesIn(m, root) && n <= EntryCount(m, root)
    ensures |es| == n && forall i :: 0 <= i < n ==> es[i] == Entry(m, root, i)
  {
    if n == 0 then [] else Entries(m, root, n - 1) + [Entry(m, root, n - 1)]
  }

  /** Every table address in `es` leads to a table that lies in memory. */
  predicate AllTablesIn(m: Bytes, es: seq<nat>)
  {
    forall i :: 0 <= i < |es| ==> TableIn(m, es[i])
  }

  /** A readable root table at `pointer` and, if it is valid, readable entries. */
  predicate RootReadable(m: Bytes, pointer: nat)
  {
    TableIn(m, pointer)
    && (Checksummed(m, pointer) ==> EntriesIn(m, pointer) && AllTablesIn(m, Entries(m, pointer, EntryCount(m, pointer))))
  }

  /**
   * The null test of `initialize`: the kernel compares the pointer after
   * registration moved it into the higher half, a 64-bit addition that wraps.
   */
  predicate RootMissing(pointer: nat)
  {
    WrapU64(pointer + PagingBase) == 0
  }

  /** Only the physical address 2^64 - `PagingBase` passes the null test; 0 does not. */
  lemma RootMissingExactly(pointer: nat)
    requires IsU64(pointer)
    ensures RootMissing(pointer) <==> pointer == U64Modulus - PagingBase
    ensures !RootMissing(0)
  {
    if pointer < U64Modulus - PagingBase {
      assert WrapU64(pointer + PagingBase) == pointer + PagingBase;
    } else {
      assert WrapU64(pointer + PagingBase) == pointer + PagingBase - U64Modulus by {
        DivModUnique(pointer + PagingBase, U64Modulus, 1, pointer + PagingBase - U64Modulus);
      }
    }
  }

  /** The firmware's tables as `initialize` as written needs them: a readable root unless the null test fires. */
  predicate Firmware(m: Bytes, pointer: nat)
  {
    !RootMissing(pointer) ==> RootReadable(m, pointer)
  }

  /** The firmware's tables as the corrected `initialize` needs them: a readable root unless there is none. */
  predicate FixedFirmware(m: Bytes, pointer: nat)
  {
    pointer != 0 ==> RootReadable(m, pointer)
  }

  /** The tables of `es` that pass the checksum, in order. */
  function Passing(m: Bytes, es: seq<nat>): seq<nat>
    requires AllTablesIn(m, es)
  {
    if |es| == 0 then []
    else Passing(m, es[..|es| - 1]) + (if Checksummed(m, es[|es| - 1]) then [es[|es| - 1]] else [])
  }

  /** The positions in `es` of the tables that pass the checksum. */
  function PassingIndices(m: Bytes, es: seq<nat>): seq<nat>
    requires AllTablesIn(m, es)
  {
    if |es| == 0 then []
    else PassingIndices(m, es[..|es| - 1]) + (if Checksummed(m, es[|es| - 1]) then [|es| - 1] else [])
  }

  /**
   * The list keeps the order of the root table: the k-th kept table is the
   * one at the k-th kept position, and the positions ascend.
   */
  lemma {:induction false} PassingInOrder(m: Bytes, es: seq<nat>)
    requires AllTablesIn(m, es)
    ensures |PassingIndices(m, es)| == |Passing(m, es)|
    ensures forall k :: 0 <= k < |Passing(m, es)| ==>
      PassingIndices(m, es)[k] < |es| && Passing(m, es)[k] == es[PassingIndices(m, es)[k]]
    ensures forall k, l :: 0 <= k < l < |PassingIndices(m, es)| ==> PassingIndices(m, es)[k] < PassingIndices(m, es)[l]
  {
    if |es| > 0 {
      var front := es[..|es| - 1];
      assert AllTablesIn(m, front) by {
        forall i | 0 <= i < |front| ensures TableIn(m, front[i]) { assert front[i] == es[i]; }
      }
      PassingInOrder(m, front);
    }
  }

  /** A position is kept exactly when its table passes the checksum. */
  lemma {:induction false} PassingIndicesExactly(m: Bytes, es: seq<nat>, i: nat)
    requires AllTablesIn(m, es) && i < |es|
    ensures i in PassingIndices(m, es) <==> Checksummed(m, es[i])
  {
    var front := es[..|es| - 1];
    assert AllTablesIn(m, front) by {
      forall j | 0 <= j < |front| ensures TableIn(m, front[j]) { assert front[j] == es[j]; }
    }
    PassingIndicesBelow(m, front);
    if i < |es| - 1 {
      assert front[i] == es[i];
      PassingIndicesExactly(m, front, i);
    }
  }

  lemma {:induction false} PassingIndicesBelow(m: Bytes, es: seq<nat>)
    requires AllTablesIn(m, es)
    ensures forall k :: 0 <= k < |PassingIndices(m, es)| ==> PassingIndices(m, es)[k] < |es|
  {
    if |es| > 0 {
      var front := es[..|es| - 1];
      assert AllTablesIn(m, front) by {
        forall j | 0 <= j < |front| ensures TableIn(m, front[j]) { assert front[j] == es[j]; }
      }
      PassingIndicesBelow(m, front);
    }
  }

  /** A table is kept exactly when it is in `es` and passes the checksum. */
  lemma {:induction false} PassingExactly(m: Bytes, es: seq<nat>, t: nat)
    requires AllTablesIn(m, es)
    ensures t in Passing(m, es) <==> t in es && TableIn(m, t) && Checksummed(m, t)
  {
    if |es| > 0 {
      var front := es[..|es| - 1];
      assert AllTablesIn(m, front) by {
        forall j | 0 <= j < |front| ensures TableIn(m, front[j]) { assert front[j] == es[j]; }
      }
      PassingExactly(m, front, t);
      assert es == front + [es[|es| - 1]];
    }
  }

  /** One iteration of the listing loop: entry `i` is appended when it passes the checksum. */
  lemma PassingStep(m: Bytes, es: seq<nat>, i: nat)
    requires AllTablesIn(m, es) && i < |es|
    ensures AllTablesIn(m, es[..i]) && AllTablesIn(m, es[..i + 1])
    ensures Passing(m, es[..i + 1]) == Passing(m, es[..i]) + (if Checksummed(m, es[i]) then [es[i]] else [])
  {
    assert es[..i + 1][..i] == es[..i];
  }

  /**
   * `initialize` as written: halts when the rebased pointer is null or the
   * root is invalid, otherwise lists the valid tables. A missing root
   * (physical 0) is not caught: the table at physical 0 is validated instead.
   */
  function InitializeSpec(m: Bytes, pointer: nat): Outcome<seq<nat>>
    requires Firmware(m, pointer)
  {
    if RootMissing(pointer) then Hang
    else if !Checksummed(m, pointer) then Hang
    else Ok(Passing(m, Entries(m, pointer, EntryCount(m, pointer))))
  }

  /** `initialize`, corrected: the null test on the physical pointer BOOTBOOT reports. */
  function FixedInitializeSpec(m: Bytes, pointer: nat): Outcome<seq<nat>>
    requires FixedFirmware(m, pointer)
  {
    if pointer == 0 then Hang
    else if !Checksummed(m, pointer) then Hang
    else Ok(Passing(m, Entries(m, pointer, EntryCount(m, pointer))))
  }

  /**
   * The two null tests against each other, for a 64-bit pointer: they
   * agree on every pointer but 0 and 2^64 - `PagingBase`; without a root
   * the corrected kernel halts, while as written it lists the tables of
   * whatever valid-looking root lies at physical 0.
   */
  lemma NullTestOnRebasedPointer(m: Bytes, pointer: nat)
    requires IsU64(pointer) && Firmware(m, pointer) && FixedFirmware(m, pointer)
    ensures pointer != 0 && pointer != U64Modulus - PagingBase ==> InitializeSpec(m, pointer) == FixedInitializeSpec(m, pointer)
    ensures pointer == 0 ==>
      FixedInitializeSpec(m, pointer).Hang? && (InitializeSpec(m, pointer).Ok? <==> Checksummed(m, 0))
  {
    RootMissingExactly(pointer);
  }

  /** Every table `initialize` lists passes the checksum and lies in memory. */
  lemma InitializeListsValid(m: Bytes, pointer: nat)
    requires Firmware(m, pointer) && InitializeSpec(m, pointer).Ok?
    ensures !RootMissing(pointer) && Checksummed(m, pointer)
    ensures forall t :: t in InitializeSpec(m, pointer).value ==> TableIn(m, t) && Checksummed(m, t)
  {
    forall t | t in InitializeSpec(m, pointer).value
      ensures TableIn(m, t) && Checksummed(m, t)
    {
      PassingExactly(m, Entries(m, pointer, EntryCount(m, pointer)), t);
    }
  }

  /* ---------------------------------------------------------------------- */
  /* Lookup by signature                                                    */
  /* ---------------------------------------------------------------------- */

  /** The table's four signature bytes are the first four characters of `signature`. */
  predicate SignatureIs(m: Bytes, t: nat, signature: string)
    requires HeaderIn(m, t) && |signature| >= 4
  {
    forall i :: 0 <= i < 4 ==> signature[i] as int == m[t + i]
  }

  predicate AllHeadersIn(m: Bytes, tables: seq<nat>)
  {
    forall k :: 0 <= k < |tables| ==> HeaderIn(m, tables[k])
  }

  /** The first listed table with the signature, if any. */
  function FindTable(m: Bytes, tables: seq<nat>, signature: string): (r: Option<nat>)
    requires AllHeadersIn(m, tables) && |signature| >= 4
    ensures r.None? <==> forall k :: 0 <= k < |tables| ==> !SignatureIs(m, tables[k], signature)
    ensures r.Some? ==> exists k :: 0 <= k < |tables| && tables[k] == r.value && SignatureIs(m, r.value, signature)
                                  && forall j :: 0 <= j < k ==> !SignatureIs(m, tables[j], signature)
    decreases |tables|
  {
    if |tables| == 0 then None
    else if SignatureIs(m, tables[0], signature) then Some(tables[0])
    else
      var r := FindTable(m, tables[1..], signature);
      assert forall k :: 1 <= k < |tables| ==> tables[1..][k - 1] == tables[k];
      r
  }

  /** The inner loop of `getTableBySignature`: every one of the four characters is compared. */
  method SignatureMatches(m: Bytes, t: nat, signature: string) returns (good: bool)
    requires HeaderIn(m, t) && |signature| >= 4
    ensures good <==> SignatureIs(m, t, signature)
  {
    good := true;
    for i := 0 to 4
      invariant good <==> forall j :: 0 <= j < i ==> signature[j] as int == m[t + j]
    {
      if signature[i] as int != m[t + i] {
        good := false;
      }
    }
  }

  /** The table directory kept by `initialize` (the pointer to the root and the list of tables). */
  class Directory {
    var memory: Bytes
    var root: nat
    var tables: seq<nat>

    ghost predicate Valid()
      reads this
    {
      AllHeadersIn(memory, tables)
    }

    constructor ()
      ensures Valid() && root == 0 && tables == []
    {
      memory := [];
      root := 0;
      tables := [];
    }

    /**
     * `initialize`, with `pointer` the root table's physical address
     * BOOTBOOT reports (0 when there is none), compared with null after rebasing.
     */
    method Initialize(m: Bytes, pointer: nat) returns (r: Outcome<()>)
      requires Firmware(m, pointer)
      modifies this
      ensures r.Hang? <==> InitializeSpec(m, pointer).Hang?
      ensures r.Ok? ==> InitializeSpec(m, pointer) == Ok(tables) && memory == m && root == pointer && Valid()
    {
      var xsdt := WrapU64(pointer + PagingBase);
      if xsdt == 0 {
        return Hang;
      }
      var ok := Validate(m, pointer);
      if !ok {
        return Hang;
      }
      memory, root := m, pointer;
      ListTables();
      assert InitializeSpec(m, pointer) == Ok(tables);
      InitializeListsValid(m, pointer);
      assert Valid() by {
        forall k | 0 <= k < |tables| ensures HeaderIn(memory, tables[k]) {
          assert tables[k] in InitializeSpec(m, pointer).value;
        }
      }
      return Ok(());
    }

    /** The new table list and the listing loop of `initialize`: the entries' tables that pass the checksum, appended in order. */
    method ListTables()
      requires !RootMissing(root) && Firmware(memory, root) && TableIn(memory, root) && Checksummed(memory, root)
      modifies this
      ensures memory == old(memory) && root == old(root)
      ensures tables == Passing(memory, Entries(memory, root, EntryCount(memory, root)))
    {
      tables := [];
      var m, entryCount := memory, EntryCount(memory, root);
      ghost var es := Entries(m, root, entryCount);
      for i := 0 to entryCount
        invariant memory == m && root == old(root)
        invariant tables == Passing(m, es[..i])
      {
        var header := Entry(m, root, i);
        var valid := Validate(m, header);
        PassingStep(m, es, i);
        if valid {
          tables := tables + [header];
        }
      }
      assert es[..entryCount] == es;
    }

    /** `getTableBySignature`: the first listed table whose signature matches, or none (nullptr). */
    method GetTableBySignature(signature: string) returns (r: Option<nat>)
      requires Valid() && |signature| >= 4
      ensures r == FindTable(memory, tables, signature)
    {
      var i := 0;
      while i < |tables|
        invariant i <= |tables|
        invariant FindTable(memory, tables, signature) == FindTable(memory, tables[i..], signature)
      {
        var good := SignatureMatches(memory, tables[i], signature);
        if good {
          return Some(tables[i]);
        }
        assert tables[i..][1..] == tables[i + 1..];
        i := i + 1;
      }
      return None;
    }
  }
}
