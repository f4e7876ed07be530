/**
 * The BOOTBOOT hand-off structure: memory-map entries whose low four size
 * bits carry the region type, and the pointers that the kernel rebases into
 * the higher half when it registers the structure.
 */
module BootBoot {
  import opened Machine

  const TypeUsed: nat := 0
  const TypeFree: nat := 1
  const TypeAcpi: nat := 2
  const TypeMmio: nat := 3

  /** Size of the fixed header that precedes the memory map. */
  const HeaderSize: nat := 128
  /** Size of one memory-map entry (two u64 words). */
  const EntrySize: nat := 16

  datatype FramebufferType = ARGB | RGBA | ABGR | BGRA

  /**
   * One memory-map entry. It is a plain struct stored in the map's array, so
   * the setters return the updated struct and the caller stores it back in
   * its slot.
   */
  datatype MemoryMapEntry = MemoryMapEntry(pointer: nat, size: nat)
  {
    predicate WellFormed() { IsU64(pointer) && IsU64(size) }

    function Address(): nat { pointer }

    /** The size with the four type bits masked off. */
    function Size(): (r: nat)
      ensures r % EntrySize == 0 && r <= size && size - r < EntrySize
    {
      size / 16 * 16
    }

    /** The region type stored in the four low size bits. */
    function Type(): (r: nat)
      ensures r < 16 && Size() + r == size
    {
      size % 16
    }

    predicate IsFree() { Type() == TypeFree }

    function WithAddress(address: nat): (e: MemoryMapEntry)
      ensures e.Address() == address && e.Size() == Size() && e.Type() == Type()
    {
      this.(pointer := address)
    }

    /** Stores a new size; its low four bits are dropped and the type is kept. */
    function WithSize(newSize: nat): (e: MemoryMapEntry)
      ensures e.Address() == Address() && e.Type() == Type()
      ensures e.Size() == newSize / 16 * 16
      ensures WellFormed() && IsU64(newSize) ==> e.WellFormed()
    {
      this.(size := newSize / 16 * 16 + Type())
    }

    /** Stores a new type and keeps the size. */
    function WithType(t: nat): (e: MemoryMapEntry)
      requires t < 16
      ensures e.Address() == Address() && e.Size() == Size() && e.Type() == t
      ensures WellFormed() ==> e.WellFormed()
    {
      this.(size := Size() + t)
    }
  }

  /**
   * Number of memory-map entries a structure of `size` bytes carries, with
   * the header subtracted in 32 bits: a size below the header wraps around
   * to a count of about 2^28.
   */
  function EntryCount(size: nat): (n: nat)
    requires IsU32(size)
    ensures size >= HeaderSize ==> HeaderSize + n * EntrySize <= size < HeaderSize + (n + 1) * EntrySize
    ensures size < HeaderSize ==> n == (U32Modulus + size - HeaderSize) / EntrySize && n >= (U32Modulus - HeaderSize) / EntrySize
  {
    WrapU32(size - HeaderSize) / EntrySize
  }

  /** The hand-off structure (only the fields the kernel core reads). */
  class Structure {
    var size: nat
    var framebufferType: FramebufferType
    var bspID: nat
    var initrdPointer: nat
    var framebufferPointer: nat
    var framebufferWidth: nat
    var framebufferHeight: nat
    var framebufferScanline: nat
    var acpiPointer: nat
    var smbiosPointer: nat
    var efiPointer: nat
    var mpPointer: nat
    var memoryMap: array<MemoryMapEntry>

    ghost predicate Valid()
      reads this, memoryMap
    {
      IsU32(size) && EntryCount(size) <= memoryMap.Length
      && forall i :: 0 <= i < memoryMap.Length ==> memoryMap[i].WellFormed()
    }

    constructor (size: nat, memoryMap: array<MemoryMapEntry>)
      requires IsU32(size) && EntryCount(size) <= memoryMap.Length
      requires forall i :: 0 <= i < memoryMap.Length ==> memoryMap[i].WellFormed()
      ensures Valid() && this.size == size && this.memoryMap == memoryMap
    {
      this.size := size;
      this.memoryMap := memoryMap;
      framebufferType := ARGB;
      bspID := 0;
      initrdPointer, framebufferPointer, acpiPointer := 0, 0, 0;
      smbiosPointer, efiPointer, mpPointer := 0, 0, 0;
      framebufferWidth, framebufferHeight, framebufferScanline := 0, 0, 0;
    }

    /**
     * Registers the structure: every physical pointer it carries is moved
     * into the higher half, as a 64-bit addition that wraps.
     */
    method Register()
      modifies this
      ensures initrdPointer == WrapU64(old(initrdPointer) + PagingBase)
      ensures framebufferPointer == WrapU64(old(framebufferPointer) + PagingBase)
      ensures acpiPointer == WrapU64(old(acpiPointer) + PagingBase)
      ensures smbiosPointer == WrapU64(old(smbiosPointer) + PagingBase)
      ensures efiPointer == WrapU64(old(efiPointer) + PagingBase)
      ensures mpPointer == WrapU64(old(mpPointer) + PagingBase)
      ensures size == old(size) && memoryMap == old(memoryMap) && bspID == old(bspID)
      ensures framebufferType == old(framebufferType)
      ensures framebufferWidth == old(framebufferWidth) && framebufferHeight == old(framebufferHeight)
      ensures framebufferScanline == old(framebufferScanline)
    {
      initrdPointer := WrapU64(initrdPointer + PagingBase);
      framebufferPointer := WrapU64(framebufferPointer + PagingBase);
      acpiPointer := WrapU64(acpiPointer + PagingBase);
      smbiosPointer := WrapU64(smbiosPointer + PagingBase);
      efiPointer := WrapU64(efiPointer + PagingBase);
      mpPointer := WrapU64(mpPointer + PagingBase);
    }
  }
}
