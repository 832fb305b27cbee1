/** The loaded executable: sections, checked reads and pointers into the image. */
module PeImage {
  import opened Wrappers
  import opened X64
  import opened MemoryRegions

  datatype Section = Section(rva: Word, size: Word, readable: bool, executable: bool) {
    predicate Contains(from: nat, length: nat) {
      rva <= from && from + length < MODULUS && rva + size < MODULUS && from + length <= rva + size
    }

    predicate HasByte(b: nat) {
      rva <= b < rva + size
    }

    function At(offset: nat): nat {
      rva + offset
    }
  }

  /** A range lies in a section exactly if all its bytes do. */
  lemma ContainsEveryByteIff(s: Section, from: nat, length: nat)
    requires length != 0 && s.rva + s.size < MODULUS
    ensures s.Contains(from, length) <==> forall b: nat :: from <= b < from + length ==> s.HasByte(b)
  {
    if forall b: nat :: from <= b < from + length ==> s.HasByte(b) {
      assert s.HasByte(from) && s.HasByte(from + length - 1);
    }
  }

  /** Memory and page protections are fixed while targets are being resolved. */
  datatype Image = Image(base: Word, size: Word, sections: seq<Section>, memory: Memory, pages: MemoryMap)

  datatype ReadError = OutsideSections | NotAccessible | NotTerminated | NotAscii

  /** What parsing the headers has checked, and where Windows puts an image. */
  ghost predicate Loaded(image: Image) {
    && image.base != 0 && image.base + image.size < MODULUS && Honest(image.pages)
    && forall s <- image.sections :: 0 < s.size && s.rva + s.size <= image.size
  }

  ghost function BytesOf(image: Image, rva: nat, length: nat): (bytes: seq<Byte>)
    ensures |bytes| == length
  {
    Read(image.memory, Wrap(image.base + rva), length)
  }

  ghost function PointerAt(image: Image, rva: nat): Word {
    ReadWord(image.memory, Wrap(image.base + rva))
  }

  ghost predicate Accessible(image: Image, rva: nat, length: nat) {
    length != 0 && AllFine(image.pages, image.base + rva, image.base + rva + length)
  }

  predicate InReadable(image: Image, rva: nat, length: nat) {
    exists s <- image.sections :: s.Contains(rva, length) && s.readable
  }

  predicate InData(image: Image, rva: nat, length: nat) {
    exists s <- image.sections :: s.Contains(rva, length) && s.readable && !s.executable
  }

  predicate InCode(image: Image, rva: nat, length: nat) {
    exists s <- image.sections :: s.Contains(rva, length) && s.executable
  }

  /** A checked read of this range succeeds. */
  ghost predicate Backed(image: Image, rva: nat, length: nat) {
    InReadable(image, rva, length) && Accessible(image, rva, length)
  }

  ghost predicate Scannable(image: Image, section: Section) {
    section.readable && Accessible(image, section.rva, section.size)
  }

  method SectionBytes(image: Image, section: Section) returns (result: Result<seq<Byte>, ReadError>)
    requires Loaded(image) && section in image.sections
    ensures result.Ok? <==> Scannable(image, section)
    ensures result.Ok? ==> result.value == BytesOf(image, section.rva, section.size)
  {
    if !section.readable {
      return Err(NotAccessible);
    }
    var ok := RangeIsReadable(image.pages, image.base + section.rva, section.size);
    if !ok {
      return Err(NotAccessible);
    }
    return Ok(Read(image.memory, image.base + section.rva, section.size));
  }

  method BytesAt(image: Image, rva: nat, length: nat) returns (result: Result<seq<Byte>, ReadError>)
    requires Loaded(image)
    ensures result.Ok? <==> Backed(image, rva, length)
    ensures result.Ok? ==> result.value == BytesOf(image, rva, length)
  {
    if !InReadable(image, rva, length) {
      return Err(OutsideSections);
    }
    var ok := RangeIsReadable(image.pages, image.base + rva, length);
    if !ok {
      return Err(NotAccessible);
    }
    return Ok(Read(image.memory, image.base + rva, length));
  }

  method ReadUsize(image: Image, rva: nat) returns (result: Result<Word, ReadError>)
    requires Loaded(image)
    ensures result.Ok? <==> Backed(image, rva, 8)
    ensures result.Ok? ==> result.value == PointerAt(image, rva)
  {
    var bytes := BytesAt(image, rva, 8);
    if bytes.Err? {
      return Err(bytes.error);
    }
    FromLeBound(bytes.value);
    assert Power(8) == MODULUS;
    return Ok(FromLe(bytes.value));
  }

  function VaToRva(image: Image, address: Word): (rva: Option<nat>)
    ensures forall r: nat :: rva == Some(r) <==> r < image.size && address == image.base + r
  {
    if address < image.base || address - image.base >= image.size then None else Some(address - image.base)
  }

  /** The pointer in this slot leads to this place in the image. */
  ghost predicate PointsTo(image: Image, slot: nat, target: nat) {
    Backed(image, slot, 8) && VaToRva(image, PointerAt(image, slot)) == Some(target)
  }

  /** The sections of a linked image do not overlap. */
  ghost predicate SectionsApart(image: Image) {
    forall i, j :: 0 <= i < j < |image.sections| ==> Separate(image.sections[i], image.sections[j])
  }

  predicate Separate(s: Section, t: Section) {
    s.rva + s.size <= t.rva || t.rva + t.size <= s.rva
  }

  /** Then no byte is both data and code. */
  lemma DataIsNotCode(image: Image, data: nat, m: nat, code: nat, n: nat)
    requires SectionsApart(image) && InData(image, data, m) && InCode(image, code, n) && m != 0 && n != 0
    ensures data + m <= code || code + n <= data
  {
    var s :| s in image.sections && s.Contains(data, m) && s.readable && !s.executable;
    var t :| t in image.sections && t.Contains(code, n) && t.executable;
    assert Separate(s, t) || Separate(t, s);
  }

  // ---------- strings ----------

  /** The first readable section around an address. */
  method FindReadable(image: Image, rva: nat) returns (found: Option<Section>)
    ensures found.None? <==> !InReadable(image, rva, 1)
    ensures found.Some? ==> found.value in image.sections && IsFirstReadable(image, rva, found.value)
  {
    for i := 0 to |image.sections|
      invariant forall j :: 0 <= j < i ==> !(image.sections[j].Contains(rva, 1) && image.sections[j].readable)
    {
      var s := image.sections[i];
      if s.Contains(rva, 1) && s.readable {
        assert IsFirstReadable(image, rva, s);
        return Some(s);
      }
    }
    return None;
  }

  ghost predicate IsFirstReadable(image: Image, rva: nat, section: Section) {
    exists i :: 0 <= i < |image.sections| && image.sections[i] == section
                && section.Contains(rva, 1) && section.readable
                && forall j :: 0 <= j < i ==> !(image.sections[j].Contains(rva, 1) && image.sections[j].readable)
  }

  lemma FirstReadableIsUnique(image: Image, rva: nat, a: Section, b: Section)
    requires IsFirstReadable(image, rva, a) && IsFirstReadable(image, rva, b)
    ensures a == b
  {
  }

  function Characters(bytes: seq<Byte>): string {
    seq(|bytes|, i requires 0 <= i < |bytes| => bytes[i] as char)
  }

  /** A terminated ASCII string stands here, and all that a reader may look at (up to
      `maximum` bytes of the first readable section around it) is accessible. */
  ghost predicate HoldsString(image: Image, rva: nat, maximum: nat, name: string) {
    exists s <- image.sections :: IsFirstReadable(image, rva, s) && StringIn(image, s, rva, maximum, name)
  }

  ghost predicate StringIn(image: Image, section: Section, rva: nat, maximum: nat, name: string) {
    && section.Contains(rva, 1)
    && var available := Available(section, rva, maximum);
    && Accessible(image, rva, available)
    && |name| < available
    && var bytes := BytesOf(image, rva, available);
    && bytes[|name|] == 0
    && (forall i :: 0 <= i < |name| ==> bytes[i] != 0 && bytes[i] < 0x80)
    && name == Characters(bytes[..|name|])
  }

  lemma StringIsUnique(image: Image, rva: nat, maximum: nat, a: string, b: string)
    requires HoldsString(image, rva, maximum, a) && HoldsString(image, rva, maximum, b)
    ensures a == b
  {
    hide IsFirstReadable, StringIn;
    var s :| s in image.sections && IsFirstReadable(image, rva, s) && StringIn(image, s, rva, maximum, a);
    var t :| t in image.sections && IsFirstReadable(image, rva, t) && StringIn(image, t, rva, maximum, b);
    FirstReadableIsUnique(image, rva, s, t);
    StringInIsUnique(image, s, rva, maximum, a, b);
  }

  /** Strings that are held are 7-bit characters without a terminator, within the limit. */
  lemma StringsAreAscii(image: Image, rva: nat, maximum: nat, name: string)
    requires HoldsString(image, rva, maximum, name)
    ensures |name| < maximum && forall i :: 0 <= i < |name| ==> 0 < name[i] as nat < 128
  {
    hide IsFirstReadable, Read;
    var s :| s in image.sections && IsFirstReadable(image, rva, s) && StringIn(image, s, rva, maximum, name);
  }

  lemma StringInIsUnique(image: Image, section: Section, rva: nat, maximum: nat, a: string, b: string)
    requires StringIn(image, section, rva, maximum, a) && StringIn(image, section, rva, maximum, b)
    ensures a == b
  {
    hide Read;
    assert |a| == |b|;
  }

  /** The longest readable range within the section that is not longer than `maximum`. */
  function Available(section: Section, rva: nat, maximum: nat): (available: nat)
    requires section.Contains(rva, 1)
    ensures available <= maximum && section.Contains(rva, available)
    ensures available == maximum || !section.Contains(rva, available + 1)
  {
    var rest := section.rva + section.size - rva;
    if rest < maximum then rest else maximum
  }

  method Terminator(bytes: seq<Byte>) returns (length: nat)
    ensures length <= |bytes| && forall i :: 0 <= i < length ==> bytes[i] != 0
    ensures length < |bytes| ==> bytes[length] == 0
  {
    length := 0;
    while length < |bytes| && bytes[length] != 0
      invariant length <= |bytes| && forall i :: 0 <= i < length ==> bytes[i] != 0
    {
      length := length + 1;
    }
  }

  method ReadAsciiCString(image: Image, rva: nat, maximum: nat) returns (result: Result<string, ReadError>)
    requires Loaded(image)
    ensures forall name :: HoldsString(image, rva, maximum, name) <==> result == Ok(name)
  {
    var found := FindReadable(image, rva);
    if found.None? {
      return Err(OutsideSections);
    }
    var section := found.value;
    forall s | IsFirstReadable(image, rva, s) ensures s == section {
      FirstReadableIsUnique(image, rva, s, section);
    }
    hide IsFirstReadable, Read;
    var available := Available(section, rva, maximum);
    assert section.Contains(rva, available);
    var bytes := BytesAt(image, rva, available);
    if bytes.Err? {
      return Err(bytes.error);
    }
    var length := Terminator(bytes.value);
    if length == available {
      return Err(NotTerminated);
    }
    if exists i :: 0 <= i < length && bytes.value[i] >= 0x80 {
      forall name | HoldsString(image, rva, maximum, name) ensures |name| == length {
      }
      return Err(NotAscii);
    }
    result := Ok(Characters(bytes.value[..length]));
    forall name | HoldsString(image, rva, maximum, name) ensures result == Ok(name) {
      assert |name| == length;
    }
  }
}
