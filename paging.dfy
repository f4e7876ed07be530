/**
 * The bit layouts of the virtual-memory declarations: the access flags of a
 * virtual memory object and the four kinds of paging-structure entries of
 * 4-level paging (section 4.5 of the Intel SDM Vol. 3A).
 *
 * Each entry kind is a datatype with one field per bit field of the source's
 * union, and `Encode`/`Decode` convert between it and the 64-bit value;
 * the two round trips show that the fields tile the 64 bits exactly.
 */
module PagingEntries {

  /** Access flags of a virtual memory object, one bit each. */
  const Writeable: bv8 := 1
  const Executable: bv8 := 2
  const Cacheable: bv8 := 4
  const UserMappable: bv8 := 8

  /** The four flags are distinct single bits. */
  lemma FlagsAreDistinctBits()
    ensures Writeable == 1 << 0 && Executable == 1 << 1 && Cacheable == 1 << 2 && UserMappable == 1 << 3
    ensures Writeable & Executable == 0 && Writeable & Cacheable == 0 && Writeable & UserMappable == 0
    ensures Executable & Cacheable == 0 && Executable & UserMappable == 0 && Cacheable & UserMappable == 0
  {
  }

  function Bit(b: bool): bv64 { if b then 1 else 0 }

  /** Whether bit `n` of `v` is set. */
  function Test(v: bv64, n: bv64): bool
    requires n < 64
  {
    (v >> n) & 1 == 1
  }

  /**
   * A PML4, PDPT or PD entry that references the next table: the six flag
   * bits, six reserved bits, the table's frame number, eleven ignored bits
   * and the execution-disable bit.
   */
  datatype TableEntry = TableEntry(present: bool, writeEnable: bool, userAccessible: bool,
                                   writeThrough: bool, cacheDisable: bool, accessed: bool,
                                   reserved: bv6, address: bv40, ignored: bv11, executionDisable: bool)

  function EncodeTable(e: TableEntry): bv64
  {
    Bit(e.present) | (Bit(e.writeEnable) << 1) | (Bit(e.userAccessible) << 2) | (Bit(e.writeThrough) << 3)
    | (Bit(e.cacheDisable) << 4) | (Bit(e.accessed) << 5) | ((e.reserved as bv64) << 6)
    | ((e.address as bv64) << 12) | ((e.ignored as bv64) << 52) | (Bit(e.executionDisable) << 63)
  }

  function DecodeTable(v: bv64): TableEntry
  {
    TableEntry(Test(v, 0), Test(v, 1), Test(v, 2), Test(v, 3), Test(v, 4), Test(v, 5),
               ((v >> 6) & 0x3f) as bv6, ((v >> 12) & 0xff_ffff_ffff) as bv40,
               ((v >> 52) & 0x7ff) as bv11, Test(v, 63))
  }

  lemma DecodeEncodeTable(e: TableEntry)
    ensures DecodeTable(EncodeTable(e)) == e
  {
  }

  /** Re-encoding a decoded flag puts back exactly that bit of the value. */
  lemma BitOfTest(v: bv64, n: bv64)
    requires n < 64
    ensures Bit(Test(v, n)) << n == v & (1 << n)
  {
  }

  lemma {:induction false} EncodeDecodeTable(v: bv64)
    ensures EncodeTable(DecodeTable(v)) == v
  {
    var e := DecodeTable(v);
    BitOfTest(v, 0); BitOfTest(v, 1); BitOfTest(v, 2); BitOfTest(v, 3); BitOfTest(v, 4); BitOfTest(v, 5);
    BitOfTest(v, 63);
    assert (e.reserved as bv64) << 6 == v & 0xfc0;
    assert (e.address as bv64) << 12 == v & 0x000f_ffff_ffff_f000;
    assert (e.ignored as bv64) << 52 == v & 0x7ff0_0000_0000_0000;
  }

  /** The physical address of the table an entry references: its frame number times 4 KiB. */
  function TableAddress(v: bv64): (a: nat)
    ensures a % 4096 == 0 && a < 0x10_0000_0000_0000
  {
    var f := DecodeTable(v).address as nat;
    assert f < 0x100_0000_0000;
    f * 4096
  }

  /**
   * A PD entry that maps a 2 MiB page: flag bits 0-5, dirty, page size and
   * global at bits 6-8, twelve reserved bits, the frame number in bits
   * 21-51, eleven ignored bits and the execution-disable bit.
   */
  datatype LargePageEntry = LargePageEntry(present: bool, writeEnable: bool, userAccessible: bool,
                                           writeThrough: bool, cacheDisable: bool, accessed: bool,
                                           dirty: bool, pageSize: bool, global: bool,
                                           reserved: bv12, address: bv31, ignored: bv11, executionDisable: bool)

  function EncodeLarge(e: LargePageEntry): bv64
  {
    Bit(e.present) | (Bit(e.writeEnable) << 1) | (Bit(e.userAccessible) << 2) | (Bit(e.writeThrough) << 3)
    | (Bit(e.cacheDisable) << 4) | (Bit(e.accessed) << 5) | (Bit(e.dirty) << 6) | (Bit(e.pageSize) << 7)
    | (Bit(e.global) << 8) | ((e.reserved as bv64) << 9) | ((e.address as bv64) << 21)
    | ((e.ignored as bv64) << 52) | (Bit(e.executionDisable) << 63)
  }

  function DecodeLarge(v: bv64): LargePageEntry
  {
    LargePageEntry(Test(v, 0), Test(v, 1), Test(v, 2), Test(v, 3), Test(v, 4), Test(v, 5),
                   Test(v, 6), Test(v, 7), Test(v, 8), ((v >> 9) & 0xfff) as bv12,
                   ((v >> 21) & 0x7fff_ffff) as bv31, ((v >> 52) & 0x7ff) as bv11, Test(v, 63))
  }

  lemma DecodeEncodeLarge(e: LargePageEntry)
    ensures DecodeLarge(EncodeLarge(e)) == e
  {
  }

  lemma {:induction false} EncodeDecodeLarge(v: bv64)
    ensures EncodeLarge(DecodeLarge(v)) == v
  {
    var e := DecodeLarge(v);
    BitOfTest(v, 0); BitOfTest(v, 1); BitOfTest(v, 2); BitOfTest(v, 3); BitOfTest(v, 4); BitOfTest(v, 5);
    BitOfTest(v, 6); BitOfTest(v, 7); BitOfTest(v, 8); BitOfTest(v, 63);
    assert (e.reserved as bv64) << 9 == v & 0x1f_fe00;
    assert (e.address as bv64) << 21 == v & 0x000f_ffff_ffe0_0000;
    assert (e.ignored as bv64) << 52 == v & 0x7ff0_0000_0000_0000;
  }

  /**
   * A PT entry that maps a 4 KiB page: flag bits 0-6, a reserved bit,
   * global, three reserved bits, the frame number in bits 12-51, eleven
   * ignored bits and the execution-disable bit.
   */
  datatype PageEntry = PageEntry(present: bool, writeEnable: bool, userAccessible: bool,
                                 writeThrough: bool, cacheDisable: bool, accessed: bool,
                                 dirty: bool, reserved1: bool, global: bool,
                                 reserved: bv3, address: bv40, ignored: bv11, executionDisable: bool)

  function EncodePage(e: PageEntry): bv64
  {
    Bit(e.present) | (Bit(e.writeEnable) << 1) | (Bit(e.userAccessible) << 2) | (Bit(e.writeThrough) << 3)
    | (Bit(e.cacheDisable) << 4) | (Bit(e.accessed) << 5) | (Bit(e.dirty) << 6) | (Bit(e.reserved1) << 7)
    | (Bit(e.global) << 8) | ((e.reserved as bv64) << 9) | ((e.address as bv64) << 12)
    | ((e.ignored as bv64) << 52) | (Bit(e.executionDisable) << 63)
  }

  function DecodePage(v: bv64): PageEntry
  {
    PageEntry(Test(v, 0), Test(v, 1), Test(v, 2), Test(v, 3), Test(v, 4), Test(v, 5),
              Test(v, 6), Test(v, 7), Test(v, 8), ((v >> 9) & 0x7) as bv3,
              ((v >> 12) & 0xff_ffff_ffff) as bv40, ((v >> 52) & 0x7ff) as bv11, Test(v, 63))
  }

  lemma DecodeEncodePage(e: PageEntry)
    ensures DecodePage(EncodePage(e)) == e
  {
  }

  lemma {:induction false} EncodeDecodePage(v: bv64)
    ensures EncodePage(DecodePage(v)) == v
  {
    var e := DecodePage(v);
    BitOfTest(v, 0); BitOfTest(v, 1); BitOfTest(v, 2); BitOfTest(v, 3); BitOfTest(v, 4); BitOfTest(v, 5);
    BitOfTest(v, 6); BitOfTest(v, 7); BitOfTest(v, 8); BitOfTest(v, 63);
    assert (e.reserved as bv64) << 9 == v & 0xe00;
    assert (e.address as bv64) << 12 == v & 0x000f_ffff_ffff_f000;
    assert (e.ignored as bv64) << 52 == v & 0x7ff0_0000_0000_0000;
  }

  /**
   * The two views of a PD entry agree on the flags of bits 0-5 and on
   * execution disable, and the 4 KiB-page view reads the same frame bits
   * as the table view.
   */
  lemma ViewsShareFlags(v: bv64)
    ensures var t, l, p := DecodeTable(v), DecodeLarge(v), DecodePage(v);
      t.present == l.present == p.present && t.writeEnable == l.writeEnable == p.writeEnable
      && t.userAccessible == l.userAccessible == p.userAccessible
      && t.writeThrough == l.writeThrough == p.writeThrough
      && t.cacheDisable == l.cacheDisable == p.cacheDisable && t.accessed == l.accessed == p.accessed
      && t.executionDisable == l.executionDisable == p.executionDisable
      && t.address == p.address && t.ignored == l.ignored == p.ignored
  {
  }
}
