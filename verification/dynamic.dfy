/** The dynamic table as a whole: the scan of `load_library_to_vm` leaves each
    field at the last entry of its own tag before the first DT_NULL. */
module DynamicTable {
  import opened Words
  import opened GuestMemory
  import opened VmState
  import opened Image

  datatype Dyn = Dyn(tag: U64, val: U64)

  function DynAt(m: Mem, at: nat): (d: Option<Dyn>)
    ensures d.Some? ==> at < TWO64
  {
    match Read(m, at, 16)
    case None => None
    case Some(bs) =>
      assert at in m;
      Some(Dyn(Word(bs[0..8]), Word(bs[8..16])))
  }

  /** The entries, of 16 bytes each, up to the first with tag zero (DT_NULL) or
      the end of readable memory. */
  function Dyns(m: Mem, at: nat): seq<Dyn>
    decreases TWO64 - at
  {
    match DynAt(m, at)
    case None => []
    case Some(d) => if d.tag == 0 then [] else [d] + Dyns(m, at + 16)
  }

  /** The last entry with a tag. */
  function LastIndex(ds: seq<Dyn>, tag: U64): (k: Option<nat>)
    ensures k.Some? ==> k.value < |ds| && ds[k.value].tag == tag && forall j | k.value < j < |ds| :: ds[j].tag != tag
    ensures k.None? ==> forall j | 0 <= j < |ds| :: ds[j].tag != tag
  {
    if ds == [] then None
    else if ds[|ds| - 1].tag == tag then Some(|ds| - 1)
    else LastIndex(ds[..|ds| - 1], tag)
  }

  function LastOf(ds: seq<Dyn>, tag: U64): Option<U64> {
    match LastIndex(ds, tag)
    case Some(k) => Some(ds[k].val)
    case None => None
  }

  /** A size field: the value itself, or what it was when no entry has the tag. */
  function SizeOf(ds: seq<Dyn>, tag: U64, before: U64): U64 {
    match LastOf(ds, tag)
    case Some(v) => v
    case None => before
  }

  /** A pointer field: the address that a virtual address has where the library
      was placed; a value below all of them is taken as a distance from the start. */
  function PointerOf(ds: seq<Dyn>, tag: U64, lib: Lib, before: U64): U64 {
    match LastOf(ds, tag)
    case Some(v) => (lib.base + v - (if v < lib.minVaddr then 0 else lib.minVaddr)) % 0x1_0000_0000_0000_0000
    case None => before
  }

  /** The library the entries describe, by the tags of the System V ABI (chapter 5, "Dynamic Section"). */
  ghost predicate Describes(ds: seq<Dyn>, lib: Lib, r: Lib) {
    && r.symtab == PointerOf(ds, 6, lib, lib.symtab)
    && r.strtab == PointerOf(ds, 5, lib, lib.strtab)
    && r.strsz == SizeOf(ds, 10, lib.strsz)
    && r.rel == PointerOf(ds, 17, lib, lib.rel)
    && r.relsz == SizeOf(ds, 18, lib.relsz)
    && r.rela == PointerOf(ds, 7, lib, lib.rela)
    && r.relasz == SizeOf(ds, 8, lib.relasz)
    && r.jmprel == PointerOf(ds, 23, lib, lib.jmprel)
    && r.pltrelsz == SizeOf(ds, 2, lib.pltrelsz)
    && r.initFunc == PointerOf(ds, 12, lib, lib.initFunc)
    && r.initArray == PointerOf(ds, 25, lib, lib.initArray)
    && r.initArraysz == SizeOf(ds, 27, lib.initArraysz)
    && r.name == lib.name && r.base == lib.base && r.minVaddr == lib.minVaddr && r.maxVaddr == lib.maxVaddr
    && r.dynamicAddr == lib.dynamicAddr && r.symbols == lib.symbols
  }

  lemma LastOfCons(d: Dyn, ds: seq<Dyn>, tag: U64)
    ensures LastOf([d] + ds, tag) ==
            match LastOf(ds, tag)
            case Some(v) => Some(v)
            case None => if d.tag == tag then Some(d.val) else None
  {
    var all := [d] + ds;
    var k, j := LastIndex(all, tag), LastIndex(ds, tag);
    assert forall i | 0 <= i < |ds| :: all[i + 1] == ds[i];
    assert j.Some? ==> all[j.value + 1].tag == tag;
    assert k.Some? && k.value > 0 ==> ds[k.value - 1].tag == tag;
    assert d.tag == tag ==> all[0].tag == tag;
  }

  lemma SizeCons(d: Dyn, ds: seq<Dyn>, tag: U64, before: U64)
    ensures SizeOf([d] + ds, tag, before) == SizeOf(ds, tag, if d.tag == tag then d.val else before)
  {
    LastOfCons(d, ds, tag);
    hide LastOf;
  }

  lemma PointerCons(d: Dyn, ds: seq<Dyn>, tag: U64, lib: Lib, before: U64)
    ensures PointerOf([d] + ds, tag, lib, before) ==
              PointerOf(ds, tag, lib, if d.tag == tag then Pointer(lib, d.val) else before)
  {
    LastOfCons(d, ds, tag);
    hide LastOf;
  }

  lemma SamePlace(lib: Lib, lib1: Lib, ds: seq<Dyn>, tag: U64, before: U64)
    requires lib1.base == lib.base && lib1.minVaddr == lib.minVaddr
    ensures PointerOf(ds, tag, lib1, before) == PointerOf(ds, tag, lib, before)
  {
  }

  lemma DescribesCons(d: Dyn, ds: seq<Dyn>, lib: Lib, r: Lib)
    requires Describes(ds, ApplyDyn(lib, d.tag, d.val), r)
    ensures Describes([d] + ds, lib, r)
  {
    hide SizeOf, PointerOf, Pointer;
    var lib1 := ApplyDyn(lib, d.tag, d.val);
    forall tag, before
      ensures SizeOf([d] + ds, tag, before) == SizeOf(ds, tag, if d.tag == tag then d.val else before)
      ensures PointerOf([d] + ds, tag, lib, before) ==
                PointerOf(ds, tag, lib, if d.tag == tag then Pointer(lib, d.val) else before)
      ensures PointerOf(ds, tag, lib1, before) == PointerOf(ds, tag, lib, before)
    {
      SizeCons(d, ds, tag, before);
      PointerCons(d, ds, tag, lib, before);
      SamePlace(lib, lib1, ds, tag, before);
    }
  }

  /** Main result: the scan leaves each field at the last entry of its tag. */
  lemma {:induction false} ScanDescribes(m: Mem, lib: Lib, at: nat)
    ensures Describes(Dyns(m, at), lib, ScanDynamic(m, lib, at))
    decreases TWO64 - at
  {
    hide Describes, ApplyDyn, Word, Read;
    match DynAt(m, at)
    case None => NothingDescribed(lib);
    case Some(d) =>
      if d.tag == DT_NULL {
        NothingDescribed(lib);
      } else {
        ScanDescribes(m, ApplyDyn(lib, d.tag, d.val), at + DYN_SIZE);
        DescribesCons(d, Dyns(m, at + DYN_SIZE), lib, ScanDynamic(m, lib, at));
      }
  }

  lemma NothingDescribed(lib: Lib)
    ensures Describes([], lib, lib)
  {
  }
}
