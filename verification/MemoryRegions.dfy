/** Walking and cloning the regions the operating system reports. The memory map is
    fixed during a call; `VirtualQuery` is a function from addresses to regions. */
module MemoryRegions {
  import opened Wrappers
  import opened X64

  datatype Region = Region(start: Word, size: Word, committed: bool, protect: bv32)

  type MemoryMap = Word -> Option<Region>

  const NOACCESS_OR_GUARD: bv32 := 0x101
  /** READONLY, READWRITE, WRITECOPY, EXECUTE_READ, EXECUTE_READWRITE, EXECUTE_WRITECOPY. */
  const READABLE: bv32 := 0xEE

  predicate Inaccessible(r: Region) {
    !r.committed || r.protect & NOACCESS_OR_GUARD != 0
  }

  predicate Readable(r: Region) {
    !Inaccessible(r) && r.protect & READABLE != 0
  }

  /** What that means for each protection: neither NOACCESS nor GUARD, and one of
      READONLY, READWRITE, WRITECOPY, EXECUTE_READ, EXECUTE_READWRITE, EXECUTE_WRITECOPY. */
  lemma ReadableProtections(r: Region)
    ensures Inaccessible(r) <==> !r.committed || r.protect & 0x01 != 0 || r.protect & 0x100 != 0
    ensures Readable(r) <==>
              && r.committed && r.protect & 0x01 == 0 && r.protect & 0x100 == 0
              && (r.protect & 0x02 != 0 || r.protect & 0x04 != 0 || r.protect & 0x08 != 0
                  || r.protect & 0x20 != 0 || r.protect & 0x40 != 0 || r.protect & 0x80 != 0)
  {
  }

  /** Ordinary code, constants and data are readable. */
  lemma OrdinaryPagesAreReadable(start: Word, size: Word)
    ensures Readable(Region(start, size, true, 0x20)) && Readable(Region(start, size, true, 0x02))
    ensures Readable(Region(start, size, true, 0x04)) && !Readable(Region(start, size, true, 0x01))
    ensures !Readable(Region(start, size, true, 0x104)) && !Readable(Region(start, size, false, 0x04))
  {
  }

  /** The byte lies in a readable region that ends inside the address space. */
  predicate Fine(memoryMap: MemoryMap, a: Word) {
    var found := memoryMap(a);
    found.Some? && Readable(found.value) && found.value.start + found.value.size < MODULUS
  }

  /** What `VirtualQuery` promises: the region it reports contains the address, and
      up to the region's end every address reports the same kind of region. */
  ghost predicate Honest(memoryMap: MemoryMap) {
    forall a: Word :: memoryMap(a).Some? ==>
      var r := memoryMap(a).value;
      && r.start <= a < r.start + r.size
      && forall b: Word :: a <= b < r.start + r.size ==> memoryMap(b).Some? && SameKind(memoryMap(b).value, r)
  }

  predicate SameKind(r: Region, s: Region) {
    r.committed == s.committed && r.protect == s.protect && r.start + r.size == s.start + s.size
  }

  ghost predicate AllFine(memoryMap: MemoryMap, from: nat, to: nat) {
    forall a: Word :: from <= a < to ==> Fine(memoryMap, a)
  }

  lemma RegionIsFine(memoryMap: MemoryMap, current: Word, r: Region)
    requires memoryMap(current) == Some(r) && Readable(r) && r.start + r.size < MODULUS
    ensures Honest(memoryMap) ==> current < r.start + r.size && AllFine(memoryMap, current, r.start + r.size)
  {
    forall b: Word | Honest(memoryMap) && current <= b < r.start + r.size ensures Fine(memoryMap, b) {
      assert SameKind(memoryMap(b).value, r);
    }
  }

  /** Walks the regions of a range. The walk ends whatever the map reports; on an
      honest map it says yes exactly if every byte of the range is fine. */
  method RangeIsReadable(memoryMap: MemoryMap, address: Word, size: Word) returns (ok: bool)
    ensures Honest(memoryMap) ==>
              (ok <==> && address != 0 && size != 0 && address + size < MODULUS
                       && AllFine(memoryMap, address, address + size))
  {
    if address == 0 || size == 0 {
      return false;
    }
    var end := address + size;
    if end >= MODULUS {
      return false;
    }
    var current: Word := address;
    while current < end
      invariant address <= current <= end
      invariant Honest(memoryMap) ==> AllFine(memoryMap, address, current)
      decreases end - current
    {
      hide Readable, Honest;
      var found := memoryMap(current);
      if found.None? || !Readable(found.value) {
        assert !Fine(memoryMap, current);
        return false;
      }
      var regionEnd := found.value.start + found.value.size;
      if regionEnd >= MODULUS {
        assert !Fine(memoryMap, current);
        return false;
      }
      RegionIsFine(memoryMap, current, found.value);
      if regionEnd <= current {
        return false;
      }
      current := if regionEnd < end then regionEnd else end;
    }
    return true;
  }

  // ---------- cloning ----------

  datatype CloneError =
    | NullAddress
    | QueryFailed
    | NotCommitted
    | OutsideRegion
    | SizeOverflow
    | TooShort
    | TooLarge
    | AllocationFailed

  /** `position` is where the cloned address lies in the buffer. */
  datatype Clone = Clone(buffer: array<Byte>, position: nat)

  /** The call can succeed: the reported region is accessible, holds the address and
      the bytes wanted behind it, and with the missing prefix stays within the limit. */
  ghost predicate Cloneable(found: Option<Region>, address: Word, before: Word, after: Word, maximum: Word) {
    && address != 0 && found.Some?
    && var r := found.value;
    && !Inaccessible(r) && r.size != 0
    && r.start <= address && address + after <= r.start + r.size
    && r.size + Missing(before, address - r.start) <= maximum
  }

  /** The bytes wanted before the address that the region does not have. */
  function Missing(before: nat, offset: nat): nat {
    if before <= offset then 0 else before - offset
  }

  /** Copies the region around an address. */
  method CloneMemoryRegionContaining(memory: Memory, memoryMap: MemoryMap, address: Word, before: Word, after: Word,
                                     maximum: Word, allocates: bool)
    returns (result: Result<Clone, CloneError>)
    ensures result.Ok? <==> Cloneable(memoryMap(address), address, before, after, maximum) && allocates
    ensures result == Err(AllocationFailed) <==>
              Cloneable(memoryMap(address), address, before, after, maximum) && !allocates
    ensures result == Err(NullAddress) <==> address == 0
    ensures result == Err(QueryFailed) <==> address != 0 && memoryMap(address).None?
    ensures result == Err(OutsideRegion) ==> address < memoryMap(address).value.start
    ensures result == Err(TooShort) ==> memoryMap(address).value.start + memoryMap(address).value.size < address + after
    // Room on both sides of the cloned address.
    ensures result.Ok? ==> fresh(result.value.buffer) && before <= result.value.position
                           && result.value.position + after <= result.value.buffer.Length
    // The whole region stands in the clone, at the same distances from the address.
    ensures result.Ok? ==>
              && var r, c := memoryMap(address).value, result.value;
              && c.buffer.Length - c.position == r.start + r.size - address
              && c.position >= address - r.start
              && forall k: int :: 0 <= k < c.buffer.Length ==>
                   c.buffer[k] == if k - c.position < r.start - address then 0
                                  else ByteAt(memory, address + (k - c.position))
    ensures result.Ok? && before <= address - memoryMap(address).value.start ==>
              result.value.position == address - memoryMap(address).value.start
  {
    hide ByteAt;
    if address == 0 {
      return Err(NullAddress);
    }
    var found := memoryMap(address);
    if found.None? {
      return Err(QueryFailed);
    }
    var region := found.value;
    if Inaccessible(region) || region.size == 0 {
      return Err(NotCommitted);
    }
    if address < region.start {
      return Err(OutsideRegion);
    }
    var offset := address - region.start;
    if offset + after >= MODULUS {
      return Err(SizeOverflow);
    }
    if offset + after > region.size {
      return Err(TooShort);
    }
    var padding := if before > offset then before - offset else 0;
    var size := region.size + padding;
    if size >= MODULUS {
      return Err(SizeOverflow);
    }
    if size > maximum {
      return Err(TooLarge);
    }
    if !allocates {
      return Err(AllocationFailed);
    }
    var buffer := new Byte[size];
    for k := 0 to padding
      invariant forall i :: 0 <= i < k ==> buffer[i] == 0
    {
      buffer[k] := 0;
    }
    for k := 0 to region.size
      invariant forall i :: 0 <= i < padding ==> buffer[i] == 0
      invariant forall i :: padding <= i < padding + k ==> buffer[i] == ByteAt(memory, region.start + (i - padding))
    {
      buffer[padding + k] := ByteAt(memory, region.start + k);
    }
    return Ok(Clone(buffer, padding + offset));
  }

  /** The check before cloning is laxer than the region walk: what passes it is
      readable exactly if the protection has one of the known readable bits and the
      region does not end at the end of the address space. */
  lemma CloneableIsReadableIff(found: Option<Region>, address: Word, before: Word, after: Word, maximum: Word)
    requires Cloneable(found, address, before, after, maximum)
    ensures Fine(_ => found, address) <==>
              found.value.protect & READABLE != 0 && found.value.start + found.value.size < MODULUS
  {
  }

  /** Execute-only code is such a case. */
  lemma CloneAcceptsUnreadableCode(address: Word, size: Word)
    requires address != 0 && size != 0 && address + size < MODULUS
    ensures var r := Region(address, size, true, 0x10);
            Cloneable(Some(r), address, 0, size, size) && !Fine(_ => Some(r), address)
  {
  }

  // ---------- a cloned table ----------

  const WORD_SIZE: nat := 8

  /** Clones the region of a table of n pointers, with one slot of room before it, and
      reads the clone back as pointers: at least n, and the same as in the root. */
  method CloneTable(memory: Memory, memoryMap: MemoryMap, table: Word, n: nat, maximum: Word, allocates: bool)
    returns (result: Result<Clone, CloneError>, capacity: nat)
    ensures result.Ok? ==>
              && memoryMap(table).Some?
              && var r, c := memoryMap(table).value, result.value;
              && capacity == (r.start + r.size - table) / WORD_SIZE && n <= capacity
              && WORD_SIZE <= c.position && c.position + capacity * WORD_SIZE <= c.buffer.Length
              && forall k :: 0 <= k < capacity ==>
                   PointerIn(c.buffer[..], c.position, k) == ReadWord(memory, Wrap(table + WORD_SIZE * k))
    ensures result.Err? && n * WORD_SIZE < MODULUS ==>
              !(Cloneable(memoryMap(table), table, WORD_SIZE, n * WORD_SIZE, maximum) && allocates)
  {
    if n * WORD_SIZE >= MODULUS {
      return Err(SizeOverflow), 0;
    }
    result := CloneMemoryRegionContaining(memory, memoryMap, table, WORD_SIZE, n * WORD_SIZE, maximum, allocates);
    if result.Err? {
      return result, 0;
    }
    var c := result.value;
    capacity := (c.buffer.Length - c.position) / WORD_SIZE;
    forall k | 0 <= k < capacity
      ensures PointerIn(c.buffer[..], c.position, k) == ReadWord(memory, Wrap(table + WORD_SIZE * k))
    {
      ClonedPointer(c.buffer[..], c.position, memory, table, k);
    }
  }

  /** The k-th pointer behind `position`. */
  ghost function PointerIn(bytes: seq<Byte>, position: nat, k: nat): nat
    requires position + WORD_SIZE * k + WORD_SIZE <= |bytes|
  {
    FromLe(bytes[position + WORD_SIZE * k..position + WORD_SIZE * k + WORD_SIZE])
  }

  lemma ClonedPointer(bytes: seq<Byte>, position: nat, memory: Memory, table: Word, k: nat)
    requires position + WORD_SIZE * k + WORD_SIZE <= |bytes|
    requires forall i :: position <= i < |bytes| ==> bytes[i] == ByteAt(memory, table + (i - position))
    ensures PointerIn(bytes, position, k) == ReadWord(memory, Wrap(table + WORD_SIZE * k))
  {
    var from := position + WORD_SIZE * k;
    var slot, read := bytes[from..from + WORD_SIZE], Read(memory, Wrap(table + WORD_SIZE * k), WORD_SIZE);
    forall j | 0 <= j < WORD_SIZE ensures slot[j] == read[j] {
      WrapAdd(table, WORD_SIZE * k, j);
      assert bytes[from + j] == ByteAt(memory, table + (WORD_SIZE * k + j));
    }
    assert slot == read;
  }
}
