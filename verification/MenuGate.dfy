/** Finding the vtable of the HDR menu's std::function through the code that refers
    to it, its run-time type information and its entries. */
module MenuGate {
  import opened Wrappers
  import opened X64
  import opened PeImage

  const INVOKE_INDEX: nat := 2
  const ENTRIES: nat := 6
  const MAX_RTTI_NAME_LENGTH: nat := 160

  // ---------- the type's name ----------

  const PREFIX := ".?AV?$_Func_impl@V<lambda_"
  const SUFFIX := ">@@V?$allocator@H@std@@_N$$V@std@@"

  predicate IsHexDigit(c: char) {
    '0' <= c <= '9' || 'a' <= c <= 'f' || 'A' <= c <= 'F'
  }

  function StripPrefix(name: string, prefix: string): (rest: Option<string>)
    ensures forall r :: rest == Some(r) <==> name == prefix + r
  {
    if prefix <= name then Some(name[|prefix|..]) else None
  }

  function StripSuffix(name: string, suffix: string): (rest: Option<string>)
    ensures forall r :: rest == Some(r) <==> name == r + suffix
  {
    if |suffix| <= |name| && name[|name| - |suffix|..] == suffix then Some(name[..|name| - |suffix|]) else None
  }

  /** The names of this class of lambda, whatever the 32-digit hash. */
  predicate IsHdrMenuLambdaName(name: string)
    ensures IsHdrMenuLambdaName(name) <==>
              exists hash: string ::
                |hash| == 32 && (forall c <- hash :: IsHexDigit(c)) && name == PREFIX + (hash + SUFFIX)
  {
    var rest := StripPrefix(name, PREFIX);
    rest.Some? &&
    var hash := StripSuffix(rest.value, SUFFIX);
    hash.Some? && |hash.value| == 32 && forall c <- hash.value :: IsHexDigit(c)
  }

  // ---------- the vtable ----------

  datatype VtableMatch = VtableMatch(rva: nat, locator: nat, entries: seq<nat>, references: nat, name: string)

  ghost function U32At(image: Image, rva: nat): nat {
    FromLe(BytesOf(image, rva, 4))
  }

  /** MSVC's Complete Object Locator of a class with this name. */
  ghost predicate IsLocatorOf(image: Image, locator: nat, name: string) {
    && InData(image, locator, 24) && Accessible(image, locator, 24)
    && U32At(image, locator) == 1 && U32At(image, locator + 4) == 0 && U32At(image, locator + 8) == 0
    && U32At(image, locator + 20) == locator
    && InData(image, U32At(image, locator + 12), 17) && InData(image, U32At(image, locator + 16), 4)
    && HoldsString(image, U32At(image, locator + 12) + 16, MAX_RTTI_NAME_LENGTH, name)
    && IsHdrMenuLambdaName(name)
  }

  /** The locator byte by byte: the numbers 1, 0, 0, the class's type descriptor, its
      hierarchy descriptor and the locator's own address, four bytes each. */
  ghost predicate IsLocatorWith(image: Image, locator: nat, name: string, typeDescriptor: nat, classDescriptor: nat) {
    && InData(image, locator, 24) && Accessible(image, locator, 24)
    && FromLe(BytesOf(image, locator, 24)[0..4]) == 1
    && FromLe(BytesOf(image, locator, 24)[4..8]) == 0
    && FromLe(BytesOf(image, locator, 24)[8..12]) == 0
    && FromLe(BytesOf(image, locator, 24)[12..16]) == typeDescriptor
    && FromLe(BytesOf(image, locator, 24)[16..20]) == classDescriptor
    && FromLe(BytesOf(image, locator, 24)[20..24]) == locator
    && InData(image, typeDescriptor, 17) && InData(image, classDescriptor, 4)
    && HoldsString(image, typeDescriptor + 16, 160, name)
    && IsHdrMenuLambdaName(name)
  }

  lemma LocatorLayout(image: Image, locator: nat, name: string)
    ensures IsLocatorOf(image, locator, name) <==>
              exists t: nat, c: nat :: IsLocatorWith(image, locator, name, t, c)
  {
    hide HoldsString, IsHdrMenuLambdaName, Read, FromLe, InData, Accessible;
    assert locator + 0 == locator;
    U32Inside(image, locator, 0, 24);
    U32Inside(image, locator, 4, 24);
    U32Inside(image, locator, 8, 24);
    U32Inside(image, locator, 12, 24);
    U32Inside(image, locator, 16, 24);
    U32Inside(image, locator, 20, 24);
    if IsLocatorOf(image, locator, name) {
      assert IsLocatorWith(image, locator, name, U32At(image, locator + 12), U32At(image, locator + 16));
    }
  }

  /** The vtable's places: the locator's slot before it and six entries, of which the
      one with index 2, sixteen bytes in, is the gate. */
  lemma VtableLayout(image: Image, gate: nat, v: VtableMatch)
    requires Describes(image, gate, v)
    ensures v.rva % 8 == 0 && 8 <= v.rva && InData(image, v.rva - 8, 56)
    ensures PointsTo(image, v.rva - 8, v.locator) && PointsTo(image, v.rva + 16, gate)
    ensures |v.entries| == 6 && v.entries[2] == gate
    ensures forall i :: 0 <= i < 6 ==> PointsTo(image, v.rva + i * 8, v.entries[i]) && InCode(image, v.entries[i], 1)
  {
    hide IsLocatorOf, PointsTo, InCode;
    forall i | 0 <= i < 6
      ensures PointsTo(image, v.rva + i * 8, v.entries[i]) && InCode(image, v.entries[i], 1)
    {
      EntryLeads(image, v.rva, v.entries, i);
    }
    DescriptionIsUnique(image, gate, v, v);
  }

  ghost predicate IsEntry(image: Image, vtable: nat, i: nat, e: nat) {
    PointsTo(image, vtable + 8 * i, e) && InCode(image, e, 1)
  }

  ghost predicate AreEntries(image: Image, vtable: nat, entries: seq<nat>) {
    forall i :: 0 <= i < |entries| ==> IsEntry(image, vtable, i, entries[i])
  }

  /** A vtable of the HDR menu's lambda whose invoke entry is the gate. */
  ghost predicate Describes(image: Image, gate: nat, v: VtableMatch) {
    && 8 <= v.rva && IsPlausible(image, v.rva, gate)
    && PointsTo(image, v.rva - 8, v.locator) && IsLocatorOf(image, v.locator, v.name)
    && |v.entries| == ENTRIES && AreEntries(image, v.rva, v.entries)
  }

  /** What is checked before the type information is looked at. */
  ghost predicate IsPlausible(image: Image, vtable: nat, gate: nat) {
    && vtable % 8 == 0 && 8 <= vtable && InData(image, vtable - 8, 8 * 7)
    && PointsTo(image, vtable + INVOKE_INDEX * 8, gate)
  }

  ghost predicate IsMenuGateVtable(image: Image, vtable: nat, gate: nat) {
    exists v: VtableMatch :: v.rva == vtable && Describes(image, gate, v)
  }

  /** All that is reported about a vtable is determined by where it is, and its
      invoke entry is the gate. */
  lemma DescriptionIsUnique(image: Image, gate: nat, v: VtableMatch, w: VtableMatch)
    requires Describes(image, gate, v) && Describes(image, gate, w) && v.rva == w.rva
    ensures w == v.(references := w.references) && v.entries[INVOKE_INDEX] == gate && InCode(image, gate, 1)
  {
    hide IsLocatorOf, PointsTo, InCode, AreEntries;
    SlotLeadsToOnePlace(image, v.rva - 8, v.locator, w.locator);
    NameIsUnique(image, v.locator, v.name, w.name);
    EntriesAreUnique(image, v.rva, v.entries, w.entries);
    EntryLeads(image, v.rva, v.entries, INVOKE_INDEX);
    SlotLeadsToOnePlace(image, v.rva + INVOKE_INDEX * 8, v.entries[INVOKE_INDEX], gate);
  }

  lemma NameIsUnique(image: Image, locator: nat, a: string, b: string)
    requires IsLocatorOf(image, locator, a) && IsLocatorOf(image, locator, b)
    ensures a == b
  {
    StringIsUnique(image, U32At(image, locator + 12) + 16, MAX_RTTI_NAME_LENGTH, a, b);
  }

  lemma EntriesAreUnique(image: Image, vtable: nat, a: seq<nat>, b: seq<nat>)
    requires |a| == |b| && AreEntries(image, vtable, a) && AreEntries(image, vtable, b)
    ensures a == b
  {
    hide PointsTo, InCode;
    forall i | 0 <= i < |a| ensures a[i] == b[i] {
      SlotLeadsToOnePlace(image, vtable + 8 * i, a[i], b[i]);
    }
  }

  lemma EntryLeads(image: Image, vtable: nat, entries: seq<nat>, i: nat)
    requires AreEntries(image, vtable, entries) && i < |entries|
    ensures PointsTo(image, vtable + i * 8, entries[i]) && InCode(image, entries[i], 1)
  {
    hide PointsTo, InCode;
    assert IsEntry(image, vtable, i, entries[i]);
  }

  lemma SlotLeadsToOnePlace(image: Image, slot: nat, a: nat, b: nat)
    requires PointsTo(image, slot, a) && PointsTo(image, slot, b)
    ensures a == b
  {
  }

  // ---------- checking one vtable ----------

  method FollowPointer(image: Image, slot: nat) returns (target: Option<nat>)
    requires Loaded(image)
    ensures forall t: nat :: target == Some(t) <==> PointsTo(image, slot, t)
  {
    var pointer := ReadUsize(image, slot);
    if pointer.Err? {
      return None;
    }
    return VaToRva(image, pointer.value);
  }

  lemma U32Inside(image: Image, rva: nat, k: nat, length: nat)
    requires k + 4 <= length
    ensures FromLe(BytesOf(image, rva, length)[k..k + 4]) == U32At(image, rva + k)
  {
    ReadSlice(image.memory, Wrap(image.base + rva), length, k, k + 4);
    WrapAdd(image.base, rva, k);
  }

  method ReadLocator(image: Image, locator: nat) returns (name: Option<string>)
    requires Loaded(image)
    ensures forall n :: name == Some(n) <==> IsLocatorOf(image, locator, n)
  {
    hide HoldsString, IsHdrMenuLambdaName, Read, FromLe, InData, InReadable, Accessible;
    if !InData(image, locator, 24) {
      return None;
    }
    DataIsReadable(image, locator, 24);
    var bytes := BytesAt(image, locator, 24);
    if bytes.Err? {
      return None;
    }
    var b := bytes.value;
    assert locator + 0 == locator;
    U32Inside(image, locator, 0, 24);
    U32Inside(image, locator, 4, 24);
    U32Inside(image, locator, 8, 24);
    U32Inside(image, locator, 12, 24);
    U32Inside(image, locator, 16, 24);
    U32Inside(image, locator, 20, 24);
    var typeDescriptor, classDescriptor := FromLe(b[12..16]), FromLe(b[16..20]);
    if FromLe(b[0..4]) != 1 || FromLe(b[4..8]) != 0 || FromLe(b[8..12]) != 0 || FromLe(b[20..24]) != locator {
      return None;
    }
    if !InData(image, typeDescriptor, 17) || !InData(image, classDescriptor, 4) {
      return None;
    }
    var found := ReadAsciiCString(image, typeDescriptor + 16, MAX_RTTI_NAME_LENGTH);
    if found.Err? || !IsHdrMenuLambdaName(found.value) {
      return None;
    }
    return Some(found.value);
  }

  lemma DataIsReadable(image: Image, rva: nat, length: nat)
    ensures InData(image, rva, length) ==> InReadable(image, rva, length)
  {
  }

  method ReadEntries(image: Image, vtable: nat) returns (entries: Option<seq<nat>>)
    requires Loaded(image)
    ensures forall e: seq<nat> :: |e| == ENTRIES ==> (entries == Some(e) <==> AreEntries(image, vtable, e))
    ensures entries.Some? ==> |entries.value| == ENTRIES
  {
    hide PointsTo, InCode;
    var read: seq<nat> := [];
    for index := 0 to ENTRIES
      invariant |read| == index && AreEntries(image, vtable, read)
    {
      var target := FollowPointer(image, vtable + index * 8);
      if target.None? || !InCode(image, target.value, 1) {
        forall e: seq<nat> | |e| == ENTRIES ensures !AreEntries(image, vtable, e) {
          assert !IsEntry(image, vtable, index, e[index]);
        }
        return None;
      }
      read := read + [target.value];
    }
    forall e: seq<nat> | |e| == ENTRIES && AreEntries(image, vtable, e) ensures e == read {
      EntriesAreUnique(image, vtable, e, read);
    }
    return Some(read);
  }

  method Plausible(image: Image, vtable: nat, gate: nat) returns (ok: bool)
    requires Loaded(image)
    ensures ok <==> IsPlausible(image, vtable, gate)
    ensures ok ==> 8 <= vtable
  {
    if vtable % 8 != 0 || vtable < 8 || !InData(image, vtable - 8, 8 * 7) {
      return false;
    }
    var invoked := FollowPointer(image, vtable + INVOKE_INDEX * 8);
    return invoked == Some(gate);
  }

  method ValidateMenuGateVtable(image: Image, vtable: nat, gate: nat) returns (result: Option<VtableMatch>)
    requires Loaded(image)
    ensures result.Some? <==> IsMenuGateVtable(image, vtable, gate)
    ensures result.Some? ==> && Describes(image, gate, result.value)
                             && result.value.rva == vtable && result.value.references == 1
  {
    hide PointsTo, IsLocatorOf, IsPlausible, AreEntries;
    var plausible := Plausible(image, vtable, gate);
    if !plausible {
      return None;
    }
    var locator := FollowPointer(image, vtable - 8);
    if locator.None? {
      return None;
    }
    var name := ReadLocator(image, locator.value);
    if name.None? {
      return None;
    }
    var entries := ReadEntries(image, vtable);
    if entries.None? {
      return None;
    }
    var v := VtableMatch(vtable, locator.value, entries.value, 1, name.value);
    assert Describes(image, gate, v);
    return Some(v);
  }
}
